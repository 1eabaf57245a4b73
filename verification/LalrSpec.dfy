/** The relations between nonterminal gotos from which LALR(1) lookaheads are computed, stated by the automaton
    and the grammar alone. */
module LalrSpec {
  import opened Grammars
  import opened Relation
  import opened Items
  import opened Automata
  import opened Nullables
  import opened Gotos
  import opened Digraphs

  /** The right-hand side of rule r. */
  function Body(G: Grammar, r: int): seq<int> {
    if G.IsRule(r) && G.rrhs[r] < G.rrhs[r + 1] <= |G.ritem| then G.ritem[G.rrhs[r]..G.rrhs[r + 1] - 1] else []
  }

  /** The states p are met when the symbols w are read from p[0] on. */
  ghost predicate Walk(A: Automaton, p: seq<nat>, w: seq<int>) {
    |p| == |w| + 1 && forall k :: 0 <= k < |w| ==> IsGoto(A, p[k], w[k], p[k + 1])
  }

  lemma {:induction false} WalkUnique(G: Grammar, A: Automaton, p: seq<nat>, q: seq<nat>, w: seq<int>)
    requires IsLR0(G, A) && Walk(A, p, w) && Walk(A, q, w) && p[0] == q[0]
    ensures p == q
    decreases |w|
  {
    if |w| > 0 {
      var n := |w| - 1;
      assert Walk(A, p[..n + 1], w[..n]) && Walk(A, q[..n + 1], w[..n]);
      WalkUnique(G, A, p[..n + 1], q[..n + 1], w[..n]);
      assert p[n] == p[..n + 1][n] && q[n] == q[..n + 1][n];
      GotoUnique(G, A, p[n], w[n], p[n + 1], q[n + 1]);
      assert p == p[..n + 1] + [p[n + 1]] && q == q[..n + 1] + [q[n + 1]];
    }
  }

  // ----- Items along a walk -----

  lemma BodySymbol(G: Grammar, r: int, m: nat)
    requires WellFormed(G) && G.IsRule(r) && m < |Body(G, r)|
    ensures RuleOk(G, r) && |Body(G, r)| == G.Length(r) && G.rrhs[r] + m + 1 < G.rrhs[r + 1] <= |G.ritem|
    ensures Body(G, r)[m] == G.ritem[G.rrhs[r] + m] == Rhs(G, r, m)
    ensures 0 <= Body(G, r)[m] < G.nsyms && Body(G, r)[m] != G.ntokens && (r > 2 ==> Body(G, r)[m] > 0)
    ensures IsItem(G, G.rrhs[r] + m) && IsItem(G, G.rrhs[r] + m + 1)
  {
    assert RuleOk(G, r);
    assert SymbolOk(G, r, G.ritem[G.rrhs[r] + m]);
  }

  lemma BodyLength(G: Grammar, r: int)
    requires WellFormed(G) && G.IsRule(r)
    ensures RuleOk(G, r) && |Body(G, r)| == G.Length(r) && G.rrhs[r + 1] <= |G.ritem|
    ensures -G.ritem[G.rrhs[r] + |Body(G, r)|] == r && IsItem(G, G.rrhs[r] + |Body(G, r)|)
  {
    assert RuleOk(G, r);
  }

  /** An item with a symbol after the dot has a successor in the goto on that symbol. */
  lemma Advance(G: Grammar, A: Automaton, s: nat, i: int) returns (t: nat)
    requires IsLR0(G, A) && s < A.NStates() && IsItem(G, i) && InState(G, A, s, i) && G.ritem[i] > 0
    ensures IsGoto(A, s, G.ritem[i], t) && t < A.NStates() && i + 1 in A.kernel[t] && InState(G, A, t, i + 1)
  {
    hide WellFormed, InClosure, InState, AreItems;
    assert StateOk(G, A, s);
    assert HasGoto(G, A, s, G.ritem[i]);
    hide StateOk;
    var k: nat :| k < |A.shifts[s]| && A.shifts[s][k] < A.NStates() && A.acc[A.shifts[s][k]] == G.ritem[i];
    t := A.shifts[s][k];
    ShiftMoves(G, A, s, k, i);
    KernelInState(G, A, t, i + 1);
  }

  lemma ShiftMoves(G: Grammar, A: Automaton, s: nat, k: nat, i: int)
    requires IsLR0(G, A) && s < A.NStates() && k < |A.shifts[s]| && IsItem(G, i) && InState(G, A, s, i)
    requires A.shifts[s][k] < A.NStates() && A.acc[A.shifts[s][k]] == G.ritem[i]
    ensures i + 1 in A.kernel[A.shifts[s][k]]
  {
    hide WellFormed, InClosure, InState;
    assert StateOk(G, A, s);
    assert GotoOk(G, A, s, A.shifts[s][k]);
    assert Shifted(G, A, s, A.acc[A.shifts[s][k]], i + 1);
  }

  lemma KernelInState(G: Grammar, A: Automaton, t: nat, i: int)
    requires KernelsOk(G, A) && t < A.NStates() && i in A.kernel[t]
    ensures InState(G, A, t, i)
  {
    assert i in Kernel(A, t);
  }

  /** Where a nonterminal can be shifted, its rules can begin. */
  lemma Begin(G: Grammar, A: Automaton, s: nat, x: int, t: int, r: nat)
    requires IsLR0(G, A) && IsGoto(A, s, x, t) && G.IsRule(r) && G.rlhs[r] == x
    ensures InState(G, A, s, G.rrhs[r])
  {
    assert StateOk(G, A, s);
    var k :| 0 <= k < |A.shifts[s]| && A.shifts[s][k] == t;
    assert GotoOk(G, A, s, A.shifts[s][k]);
    var j :| Shifted(G, A, s, A.acc[t], j);
    hide StateOk, GotoOk;
    ClosureCloses(G, Kernel(A, s), j - 1, r);
    assert InClosure(G, Kernel(A, s), G.rrhs[r]);
  }

  /** The item reached after the first m symbols of a rule. */
  ghost predicate OnTrack(G: Grammar, A: Automaton, p: seq<nat>, r: nat, m: nat)
    requires KernelsOk(G, A)
  {
    && G.IsRule(r) && m <= |Body(G, r)| && Walk(A, p, Body(G, r)[..m]) && p[m] < A.NStates()
    && InState(G, A, p[m], G.rrhs[r] + m)
  }

  lemma TrackStart(G: Grammar, A: Automaton, s: nat, t: int, r: nat)
    requires IsLR0(G, A) && G.IsRule(r) && IsGoto(A, s, G.rlhs[r], t)
    ensures OnTrack(G, A, [s], r, 0)
  {
    Begin(G, A, s, G.rlhs[r], t, r);
  }

  /** On its way through a rule the automaton can always go on. */
  lemma TrackStep(G: Grammar, A: Automaton, p: seq<nat>, r: nat, m: nat) returns (t: nat)
    requires IsLR0(G, A) && OnTrack(G, A, p, r, m) && r > 2 && m < |Body(G, r)|
    ensures IsGoto(A, p[m], Body(G, r)[m], t) && OnTrack(G, A, p + [t], r, m + 1)
  {
    hide *;
    TrackParts(G, A, p, r, m);
    BodySymbol(G, r, m);
    t := Advance(G, A, p[m], G.rrhs[r] + m);
    WalkMore(A, p, Body(G, r)[..m], Body(G, r)[m], t);
    assert Body(G, r)[..m + 1] == Body(G, r)[..m] + [Body(G, r)[m]];
    TrackIntro(G, A, p + [t], r, m + 1);
  }

  lemma TrackParts(G: Grammar, A: Automaton, p: seq<nat>, r: nat, m: nat)
    requires IsLR0(G, A) && OnTrack(G, A, p, r, m)
    ensures WellFormed(G) && KernelsOk(G, A) && G.IsRule(r) && 0 <= r < |G.rrhs| && m <= |Body(G, r)| && |p| == m + 1
    ensures Walk(A, p, Body(G, r)[..m]) && p[m] < A.NStates() && InState(G, A, p[m], G.rrhs[r] + m)
  {
    hide WellFormed, InState, Body, IsGoto;
  }

  lemma TrackIntro(G: Grammar, A: Automaton, p: seq<nat>, r: nat, m: nat)
    requires KernelsOk(G, A) && G.IsRule(r) && m <= |Body(G, r)| && |p| == m + 1
    requires Walk(A, p, Body(G, r)[..m]) && p[m] < A.NStates() && InState(G, A, p[m], G.rrhs[r] + m)
    ensures OnTrack(G, A, p, r, m)
  {
    hide KernelsOk, InState, Body, Walk;
  }

  lemma WalkMore(A: Automaton, p: seq<nat>, w: seq<int>, x: int, t: nat)
    requires Walk(A, p, w) && |p| > 0 && IsGoto(A, p[|p| - 1], x, t)
    ensures Walk(A, p + [t], w + [x])
  {
    hide IsGoto;
  }

  lemma {:induction false} TrackFrom(G: Grammar, A: Automaton, s: nat, t: int, r: nat, m: nat) returns (p: seq<nat>)
    requires IsLR0(G, A) && G.IsRule(r) && r > 2 && IsGoto(A, s, G.rlhs[r], t) && m <= |Body(G, r)|
    ensures OnTrack(G, A, p, r, m) && p[0] == s
    decreases m
  {
    if m == 0 {
      TrackStart(G, A, s, t, r);
      p := [s];
    } else {
      var p' := TrackFrom(G, A, s, t, r, m - 1);
      var u := TrackStep(G, A, p', r, m - 1);
      p := p' + [u];
    }
  }

  /** At the end of a rule, its state reduces it. */
  lemma TrackEnd(G: Grammar, A: Automaton, p: seq<nat>, r: nat)
    requires IsLR0(G, A) && OnTrack(G, A, p, r, |Body(G, r)|)
    ensures Walk(A, p, Body(G, r)) && r in A.reds[p[|Body(G, r)|]]
  {
    BodyLength(G, r);
    var n := |Body(G, r)|;
    assert Body(G, r)[..n] == Body(G, r);
    assert StateOk(G, A, p[n]);
  }

  // ----- The relations -----

  /** The gotos as numbers. */
  function Count(M: GotoMap): nat { |M.from| }

  ghost predicate Numbered(M: GotoMap, k: nat) { k < |M.from| == |M.to| }

  /** The symbol of goto k. */
  function SymbolOf(A: Automaton, M: GotoMap, k: nat): int {
    if k < |M.to| && M.to[k] < |A.acc| then A.acc[M.to[k]] else -1
  }

  /** Every number is a goto on a nonterminal. */
  lemma GotoOf(G: Grammar, A: Automaton, M: GotoMap, k: nat) returns (x: nat)
    requires GotosExact(G, A, M) && k < Count(M)
    ensures IsNonterminal(G, x) && InSegment(G, M, x, k) && IsGoto(A, M.from[k], x, M.to[k]) && SymbolOf(A, M, k) == x
  {
    var v := FindSegment(M, k, |M.base| - 1);
    x := v + G.ntokens;
    assert InSegment(G, M, x, k);
  }

  lemma {:induction false} FindSegment(M: GotoMap, k: nat, n: nat) returns (v: nat)
    requires n < |M.base| && M.base[0] == 0 && k < M.base[n]
    ensures v < n && M.base[v] <= k < M.base[v + 1]
    decreases n
  {
    if k >= M.base[n - 1] { v := n - 1; } else { v := FindSegment(M, k, n - 1); }
  }

  /** A goto has one number. */
  lemma NumberUnique(G: Grammar, A: Automaton, M: GotoMap, k: nat, m: nat)
    requires GotosExact(G, A, M) && k < Count(M) && m < Count(M) && M.from[k] == M.from[m] && SymbolOf(A, M, k) == SymbolOf(A, M, m)
    ensures k == m
  {
    var x := GotoOf(G, A, M, k);
    var y := GotoOf(G, A, M, m);
  }

  ghost predicate NullableSymbol(G: Grammar, x: int)
    requires WellFormed(G)
  {
    x >= 0 && DerivesEmpty(G, x)
  }

  /** Token a can be read right after goto i; the end marker can be read after the goal. */
  ghost predicate DirectlyRead(G: Grammar, A: Automaton, M: GotoMap, i: nat, a: int) {
    && Numbered(M, i) && 0 <= a < G.ntokens
    && (HasTarget(A, M.to[i], a) || (i == 0 && a == 0))
  }

  ghost function DirectReads(G: Grammar, A: Automaton, M: GotoMap): (f: Sets)
    ensures |f| == Count(M)
    ensures forall i: nat, a :: i < |f| ==> (a in f[i] <==> DirectlyRead(G, A, M, i, a))
  {
    seq(Count(M), i requires 0 <= i < Count(M) => set a | 0 <= a < G.ntokens && DirectlyRead(G, A, M, i, a))
  }

  /** Goto k, on a nullable nonterminal, starts where goto i ends. */
  ghost predicate ReadsEdge(G: Grammar, A: Automaton, M: GotoMap, i: nat, k: nat)
    requires WellFormed(G)
  {
    Numbered(M, i) && Numbered(M, k) && M.from[k] == M.to[i] && NullableSymbol(G, SymbolOf(A, M, k))
  }

  /** Goto k is on the last symbol of a rule for goto i that does not vanish: what follows i follows k. */
  ghost predicate IncludesEdge(G: Grammar, A: Automaton, M: GotoMap, k: nat, i: nat)
    requires WellFormed(G)
  {
    exists r: nat, m: nat, p :: IncludesVia(G, A, M, k, i, r, m, p)
  }

  ghost predicate IncludesVia(G: Grammar, A: Automaton, M: GotoMap, k: nat, i: nat, r: nat, m: nat, p: seq<nat>)
    requires WellFormed(G)
  {
    && RuleFrom(G, A, M, i, r, p) && Numbered(M, k)
    && m < |Body(G, r)| && IsNonterminal(G, Body(G, r)[m]) && M.from[k] == p[m] && M.to[k] == p[m + 1]
    && RestVanishes(G, r, m + 1)
  }

  /** The symbols of rule r from position m on are nullable. */
  ghost predicate RestVanishes(G: Grammar, r: nat, m: nat)
    requires WellFormed(G)
  {
    forall j :: m <= j < |Body(G, r)| ==> NullableSymbol(G, Body(G, r)[j])
  }

  /** Rule r of the symbol of goto i, read from where i starts. */
  ghost predicate RuleFrom(G: Grammar, A: Automaton, M: GotoMap, i: nat, r: nat, p: seq<nat>) {
    && Numbered(M, i) && G.IsRule(r) && G.rlhs[r] == SymbolOf(A, M, i)
    && Walk(A, p, Body(G, r)) && p[0] == M.from[i]
  }

  /** Reducing rule r in state q can lead back to goto i. */
  ghost predicate Lookback(G: Grammar, A: Automaton, M: GotoMap, q: nat, r: nat, i: nat) {
    exists p :: RuleFrom(G, A, M, i, r, p) && p[|Body(G, r)|] == q
  }

  ghost predicate IsReads(G: Grammar, A: Automaton, M: GotoMap, R: Rel)
    requires WellFormed(G)
  {
    ValidRel(R) && |R| == Count(M) && forall i: nat, k: nat :: Edge(R, i, k) <==> ReadsEdge(G, A, M, i, k)
  }

  ghost predicate IsIncludes(G: Grammar, A: Automaton, M: GotoMap, R: Rel)
    requires WellFormed(G)
  {
    ValidRel(R) && |R| == Count(M) && forall k: nat, i: nat :: Edge(R, k, i) <==> IncludesEdge(G, A, M, k, i)
  }

  /** The Read sets: the least solution of the reads equations. */
  ghost predicate ReadSets(G: Grammar, A: Automaton, M: GotoMap, f: Sets)
    requires WellFormed(G)
  {
    exists R :: IsReads(G, A, M, R) && Closed(R, DirectReads(G, A, M), f)
  }

  /** The Follow sets: the least solution of the includes equations over the Read sets. */
  ghost predicate FollowSets(G: Grammar, A: Automaton, M: GotoMap, f: Sets)
    requires WellFormed(G)
  {
    exists rd, R :: ReadSets(G, A, M, rd) && IsIncludes(G, A, M, R) && Closed(R, rd, f)
  }

  /** Token a may be seen when state q reduces by rule r. */
  ghost predicate InLookahead(G: Grammar, A: Automaton, M: GotoMap, f: Sets, q: nat, r: nat, a: int) {
    exists i: nat :: i < |f| && Lookback(G, A, M, q, r, i) && a in f[i]
  }
}
