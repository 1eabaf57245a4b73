/** The canonical LR(0) automaton of a grammar, as a property of the state table. */
module Automata {
  import opened Grammars
  import opened Items

  /** Per state: its kernel, the symbol that leads to it, the targets of its shifts, and the rules it reduces. */
  datatype Automaton = Automaton(kernel: seq<seq<int>>, acc: seq<nat>, shifts: seq<seq<nat>>, reds: seq<seq<int>>) {
    function NStates(): nat { |kernel| }
  }

  function Kernel(A: Automaton, s: nat): set<int>
    requires s < A.NStates()
  {
    set i | i in A.kernel[s]
  }

  ghost predicate KernelsOk(G: Grammar, A: Automaton) {
    && WellFormed(G)
    && |A.kernel| == |A.acc| == |A.shifts| == |A.reds| > 0
    && forall s :: 0 <= s < A.NStates() ==> AreItems(G, Kernel(A, s))
  }

  /** Item `i` is in the closure of state `s`. */
  ghost predicate InState(G: Grammar, A: Automaton, s: nat, i: int)
    requires KernelsOk(G, A) && s < A.NStates()
  {
    InClosure(G, Kernel(A, s), i)
  }

  /** The items after shifting `x` in state `s`. */
  ghost predicate Shifted(G: Grammar, A: Automaton, s: nat, x: int, j: int)
    requires KernelsOk(G, A) && s < A.NStates()
  {
    IsItem(G, j - 1) && InState(G, A, s, j - 1) && G.ritem[j - 1] == x
  }

  /** State `t` is the goto of state `s` on its accessing symbol. */
  ghost predicate GotoOk(G: Grammar, A: Automaton, s: nat, t: nat)
    requires KernelsOk(G, A) && s < A.NStates()
  {
    && 0 < t < A.NStates() && A.acc[t] > 0
    && (exists j :: Shifted(G, A, s, A.acc[t], j))
    && forall j :: j in A.kernel[t] <==> Shifted(G, A, s, A.acc[t], j)
  }

  ghost predicate HasGoto(G: Grammar, A: Automaton, s: nat, x: int)
    requires KernelsOk(G, A) && s < A.NStates()
  {
    exists k :: 0 <= k < |A.shifts[s]| && A.shifts[s][k] < A.NStates() && A.acc[A.shifts[s][k]] == x
  }

  ghost predicate StateOk(G: Grammar, A: Automaton, s: nat)
    requires KernelsOk(G, A) && s < A.NStates()
  {
    && (forall k :: 0 <= k < |A.shifts[s]| ==> GotoOk(G, A, s, A.shifts[s][k]))
    && (forall k, m :: 0 <= k < m < |A.shifts[s]| ==> A.acc[A.shifts[s][k]] < A.acc[A.shifts[s][m]])
    && (forall i :: IsItem(G, i) && InState(G, A, s, i) && G.ritem[i] > 0 ==> HasGoto(G, A, s, G.ritem[i]))
    && (forall r :: r in A.reds[s] <==> exists i :: IsItem(G, i) && InState(G, A, s, i) && G.ritem[i] < 0 && r == -G.ritem[i])
  }

  /** `A` is the canonical collection: it starts from the initial item of `$accept`, every state has
      exactly its gotos (ordered by symbol) and its completed rules, and no two kernels are equal. */
  ghost predicate IsLR0(G: Grammar, A: Automaton) {
    && KernelsOk(G, A)
    && A.kernel[0] == [1] && A.acc[0] == 0
    && (forall s :: 0 <= s < A.NStates() ==> StateOk(G, A, s))
    && (forall s, t :: 0 <= s < t < A.NStates() ==> A.kernel[s] != A.kernel[t])
  }

  // ----- Paths -----

  /** A sequence of states from state 0 along shifts. */
  ghost predicate IsPath(A: Automaton, p: seq<int>) {
    && |p| > 0 && p[0] == 0
    && (forall k :: 0 <= k < |p| ==> 0 <= p[k] < |A.shifts| == |A.acc| == |A.kernel|)
    && forall k :: 0 <= k < |p| - 1 ==> p[k + 1] in A.shifts[p[k]]
  }

  lemma PathPrefix(A: Automaton, p: seq<int>, n: nat)
    requires IsPath(A, p) && 0 < n <= |p|
    ensures IsPath(A, p[..n])
  {
  }

  lemma KernelItem(G: Grammar, A: Automaton, p: seq<int>, i: int)
    requires IsLR0(G, A) && IsPath(A, p) && |p| > 1 && i in A.kernel[p[|p| - 1]]
    ensures IsItem(G, i - 1) && InState(G, A, p[|p| - 2], i - 1)
    ensures G.ritem[i - 1] == A.acc[p[|p| - 1]]
  {
    var s, t := p[|p| - 2], p[|p| - 1];
    assert p[|p| - 2 + 1] in A.shifts[p[|p| - 2]];
    assert StateOk(G, A, s);
    var k :| 0 <= k < |A.shifts[s]| && A.shifts[s][k] == t;
    assert GotoOk(G, A, s, A.shifts[s][k]);
  }

  /** The last `d` states of the path are entered by the symbols before the dot of item `i`. */
  ghost predicate Spells(G: Grammar, A: Automaton, p: seq<int>, i: int, d: nat)
  {
    && d < |p| && d <= i <= |G.ritem|
    && forall m :: |p| - d <= m < |p| ==> 0 <= p[m] < |A.acc| && A.acc[p[m]] == G.ritem[i - |p| + m]
  }

  /** An item in the last state of a path, with the dot `d` symbols into its rule: the path spells these symbols,
      and `d` states earlier the rule's initial item is present. */
  lemma {:induction false} ItemSpellsPath(G: Grammar, A: Automaton, p: seq<int>, i: int, r: nat, d: nat)
    requires IsLR0(G, A) && IsPath(A, p)
    requires IsItem(G, i) && InState(G, A, p[|p| - 1], i) && G.ItemOf(i, r) && d == i - G.rrhs[r]
    ensures Spells(G, A, p, i, d)
    ensures InState(G, A, p[|p| - 1 - d], G.rrhs[r])
    decreases d
  {
    if d > 0 {
      NotInitial(G, A, p[|p| - 1], i, r);
      if |p| == 1 {
        KernelZero(G, A, i, r);
      } else {
        KernelItem(G, A, p, i);
        PathPrefix(A, p, |p| - 1);
        RuleBounds(G, r);
        hide WellFormed, StateOk;
        ItemSpellsPath(G, A, p[..|p| - 1], i - 1, r, d - 1);
        SpellsMore(G, A, p, i, d);
      }
    }
  }

  lemma SpellsMore(G: Grammar, A: Automaton, p: seq<int>, i: int, d: nat)
    requires 0 < d && |p| > 1 && 0 < i < |G.ritem| && Spells(G, A, p[..|p| - 1], i - 1, d - 1)
    requires 0 <= p[|p| - 1] < |A.acc| && A.acc[p[|p| - 1]] == G.ritem[i - 1]
    ensures Spells(G, A, p, i, d)
  {
    forall m | |p| - d <= m < |p| ensures 0 <= p[m] < |A.acc| && A.acc[p[m]] == G.ritem[i - |p| + m] {
      if m < |p| - 1 { assert p[..|p| - 1][m] == p[m]; }
    }
  }

  /** An item that is not initial can only come from the kernel. */
  lemma NotInitial(G: Grammar, A: Automaton, s: nat, i: int, r: nat)
    requires KernelsOk(G, A) && s < A.NStates() && InState(G, A, s, i) && G.ItemOf(i, r) && i > G.rrhs[r]
    ensures i in A.kernel[s]
  {
    if i !in A.kernel[s] {
      var q: nat :| BroughtIn(G, Kernel(A, s), q) && i == G.rrhs[q];
      RuleBounds(G, q);
      RuleUnique(G, i, r, q);
    }
  }

  lemma KernelZero(G: Grammar, A: Automaton, i: int, r: nat)
    requires IsLR0(G, A) && i in A.kernel[0] && G.ItemOf(i, r)
    ensures i == G.rrhs[r]
  {
    RuleUnique(G, 1, r, 2);
  }

  /** Every state of a path but the first is entered by a symbol other than the end marker. */
  lemma EnteredBySymbol(G: Grammar, A: Automaton, p: seq<int>)
    requires IsLR0(G, A) && IsPath(A, p) && |p| > 1
    ensures A.acc[p[|p| - 1]] > 0
  {
    var s := p[|p| - 2];
    assert p[|p| - 2 + 1] in A.shifts[s];
    assert StateOk(G, A, s);
    var k :| 0 <= k < |A.shifts[s]| && A.shifts[s][k] == p[|p| - 1];
    assert GotoOk(G, A, s, A.shifts[s][k]);
  }

  /** The completed item behind a reduction. */
  lemma CompletedItem(G: Grammar, A: Automaton, s: nat, r: int) returns (i: int)
    requires IsLR0(G, A) && s < A.NStates() && r in A.reds[s]
    ensures G.IsRule(r) && RuleOk(G, r) && G.ItemOf(i, r) && i - G.rrhs[r] == G.Length(r)
    ensures IsItem(G, i) && InState(G, A, s, i)
  {
    i := ReductionItem(G, A, s, r);
    hide StateOk, InState, IsLR0;
    var q := FindRule(G, i, |G.rlhs|);
    EndOfRule(G, i, q);
    assert RuleOk(G, q);
  }

  lemma ReductionItem(G: Grammar, A: Automaton, s: nat, r: int) returns (i: int)
    requires IsLR0(G, A) && s < A.NStates() && r in A.reds[s]
    ensures WellFormed(G) && IsItem(G, i) && InState(G, A, s, i) && G.ritem[i] < 0 && r == -G.ritem[i]
  {
    hide WellFormed, InState;
    assert StateOk(G, A, s);
    i :| IsItem(G, i) && InState(G, A, s, i) && G.ritem[i] < 0 && r == -G.ritem[i];
  }

  /** The initial item of rule `r` > 2 can only be there because the left side can be shifted. */
  lemma InitialNeedsGoto(G: Grammar, A: Automaton, p: seq<int>, r: nat)
    requires IsLR0(G, A) && IsPath(A, p) && G.IsRule(r) && r > 2 && InState(G, A, p[|p| - 1], G.rrhs[r])
    ensures HasGoto(G, A, p[|p| - 1], G.rlhs[r])
  {
    var b := p[|p| - 1];
    RuleBounds(G, r);
    if G.rrhs[r] in A.kernel[b] {
      InitialInKernel(G, A, p, r);
    } else {
      var q: nat :| BroughtIn(G, Kernel(A, b), q) && G.rrhs[r] == G.rrhs[q];
      RuleBounds(G, q);
      RuleUnique(G, G.rrhs[r], r, q);
      var j := ClosureSupported(G, Kernel(A, b), r);
      assert StateOk(G, A, b);
    }
  }

  /** A reduction is possible only when the stack spells the right-hand side, and below it the left side can be
      shifted. The end marker is never shifted, so rule 2 is never reduced. */
  lemma ReductionSpellsStack(G: Grammar, A: Automaton, p: seq<int>, r: int)
    requires IsLR0(G, A) && IsPath(A, p) && r in A.reds[p[|p| - 1]]
    ensures G.IsRule(r) && r > 2 && RuleOk(G, r)
    ensures Spells(G, A, p, G.rrhs[r] + G.Length(r), G.Length(r))
    ensures HasGoto(G, A, p[|p| - 1 - G.Length(r)], G.rlhs[r])
  {
    var i := CompletedItem(G, A, p[|p| - 1], r);
    hide WellFormed;
    var d := G.Length(r);
    ItemSpellsPath(G, A, p, i, r, d);
    if r == 2 {
      AcceptNeverReduced(G, A, p, i);
    }
    PathPrefix(A, p, |p| - d);
    InitialNeedsGoto(G, A, p[..|p| - d], r);
  }

  lemma AcceptNeverReduced(G: Grammar, A: Automaton, p: seq<int>, i: int)
    requires IsLR0(G, A) && IsPath(A, p) && G.ItemOf(i, 2) && i - G.rrhs[2] == 2
    ensures !Spells(G, A, p, i, 2)
  {
    if Spells(G, A, p, i, 2) {
      EnteredBySymbol(G, A, p);
    }
  }

  /** Only state 0 has an initial item in its kernel, that of rule 2. */
  lemma InitialInKernel(G: Grammar, A: Automaton, p: seq<int>, r: nat)
    requires IsLR0(G, A) && IsPath(A, p) && G.IsRule(r) && G.rrhs[r] in A.kernel[p[|p| - 1]]
    ensures r == 2
  {
    if |p| > 1 {
      KernelItem(G, A, p, G.rrhs[r]);
      var i := G.rrhs[r] - 1;
      var q := FindRule(G, i, |G.rlhs|);
      EndOfRule(G, i, q);
      RuleBounds(G, q);
      RuleUnique(G, G.rrhs[r], r, q);
    } else {
      RuleUnique(G, 1, r, 2);
    }
  }
}
