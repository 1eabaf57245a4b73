/** The Follow sets are large enough: every token that comes after a nonterminal in some derivation is in the
    Follow set of its goto. */
module LalrFollow {
  import opened Grammars
  import opened Relation
  import opened Automata
  import opened Nullables
  import opened Gotos
  import opened Digraphs
  import opened LalrSpec

  /** What is needed of the Read sets. */
  ghost predicate ReadsUp(G: Grammar, A: Automaton, M: GotoMap, rd: Sets)
    requires WellFormed(G)
  {
    && |rd| == Count(M)
    && (forall i: nat, a :: i < |rd| && DirectlyRead(G, A, M, i, a) ==> a in rd[i])
    && (forall i: nat, k: nat :: i < |rd| && k < |rd| && ReadsEdge(G, A, M, i, k) ==> rd[k] <= rd[i])
  }

  /** What is needed of the Follow sets. */
  ghost predicate FollowsUp(G: Grammar, A: Automaton, M: GotoMap, rd: Sets, f: Sets)
    requires WellFormed(G)
  {
    && |f| == |rd| == Count(M)
    && (forall i: nat :: i < |f| ==> rd[i] <= f[i])
    && (forall k: nat, i: nat :: k < |f| && i < |f| && IncludesEdge(G, A, M, k, i) ==> f[i] <= f[k])
  }

  lemma ReadsAreUp(G: Grammar, A: Automaton, M: GotoMap, rd: Sets)
    requires WellFormed(G) && ReadSets(G, A, M, rd)
    ensures ReadsUp(G, A, M, rd)
  {
    var R :| IsReads(G, A, M, R) && Closed(R, DirectReads(G, A, M), rd);
    hide WellFormed, DirectlyRead, ReadsEdge, Closed;
    ClosedSize(R, DirectReads(G, A, M), rd);
    ClosedIsLeastSolution(R, DirectReads(G, A, M), rd);
    forall i: nat, a | i < |rd| && DirectlyRead(G, A, M, i, a) ensures a in rd[i] {
      assert a in DirectReads(G, A, M)[i];
    }
    forall i: nat, k: nat | i < |rd| && k < |rd| && ReadsEdge(G, A, M, i, k) ensures rd[k] <= rd[i] {
      assert Edge(R, i, k);
    }
  }

  lemma ClosedSize(R: Rel, f0: Sets, f: Sets)
    requires Closed(R, f0, f)
    ensures |f| == |f0|
  {}

  lemma FollowsAreUp(G: Grammar, A: Automaton, M: GotoMap, f: Sets) returns (rd: Sets)
    requires WellFormed(G) && FollowSets(G, A, M, f)
    ensures ReadsUp(G, A, M, rd) && FollowsUp(G, A, M, rd, f)
  {
    var R;
    rd, R :| ReadSets(G, A, M, rd) && IsIncludes(G, A, M, R) && Closed(R, rd, f);
    ReadsAreUp(G, A, M, rd);
    hide WellFormed, IncludesEdge, ReadSets, ReadsEdge, DirectlyRead, Closed;
    ClosedSize(R, rd, f);
    ClosedIsLeastSolution(R, rd, f);
    forall k: nat, i: nat | k < |f| && i < |f| && IncludesEdge(G, A, M, k, i) ensures f[i] <= f[k] {
      assert Edge(R, k, i);
    }
  }

  lemma {:induction false} YieldAllTail(ts: seq<Tree>, m: nat)
    requires m < |ts|
    ensures YieldAll(ts[m..]) == Yield(ts[m]) + YieldAll(ts[m + 1..])
  {
    YieldAllConcat([ts[m]], ts[m + 1..]);
    assert ts[m..] == [ts[m]] + ts[m + 1..];
    assert [ts[m]][..0] == [];
  }

  /** The first token of a tree that can be put after goto i is in its Read set. */
  lemma {:induction false} ReadsTree(G: Grammar, A: Automaton, M: GotoMap, rd: Sets, t: Tree, i: nat, u: int)
    requires IsLR0(G, A) && GotosExact(G, A, M) && ReadsUp(G, A, M, rd)
    requires Numbered(M, i) && TreeOk(G, t) && IsGoto(A, M.to[i], Root(G, t), u) && |Yield(t)| > 0
    ensures Yield(t)[0] in rd[i]
    decreases t, 1, 0
  {
    match t
    case Leaf(a) =>
      hide IsLR0, WellFormed, GotosExact;
      assert HasTarget(A, M.to[i], a);
      assert DirectlyRead(G, A, M, i, a);
    case Node(r, kids) =>
      NodeBody(G, r, kids);
      hide IsLR0, WellFormed, GotosExact, ReadsUp, TreeOk, IsGoto;
      LeftSide(G, A, M.to[i], G.rlhs[r], u, r);
      TrackStart(G, A, M.to[i], u, r);
      assert kids[0..] == kids;
      ReadsKids(G, A, M, rd, r, kids, [M.to[i]], 0, i);
  }

  /** Kids for the right-hand side of r. */
  ghost predicate KidsOk(G: Grammar, r: nat, kids: seq<Tree>)
    requires WellFormed(G)
  {
    |kids| == |Body(G, r)| && forall k: nat :: k < |kids| ==> TreeOk(G, kids[k]) && Root(G, kids[k]) == Body(G, r)[k]
  }

  lemma NodeBody(G: Grammar, r: nat, kids: seq<Tree>)
    requires WellFormed(G) && TreeOk(G, Node(r, kids))
    ensures G.IsRule(r) && |kids| == |Body(G, r)| && KidsOk(G, r, kids)
  {
    BodyLength(G, r);
    forall k: nat | k < |kids| ensures TreeOk(G, kids[k]) && Root(G, kids[k]) == Body(G, r)[k] {
      BodySymbol(G, r, k);
    }
  }

  /** The rule of `$accept` is never read: nothing goes to the end marker. */
  lemma LeftSide(G: Grammar, A: Automaton, s: nat, x: nat, u: int, r: nat)
    requires IsLR0(G, A) && G.IsRule(r) && G.rlhs[r] == x && IsGoto(A, s, x, u)
    ensures r > 2
  {
    var k: nat :| k < |A.shifts[s]| && A.shifts[s][k] == u;
    ShiftSymbol(G, A, s, k);
    assert RuleOk(G, r);
  }

  lemma SomeLeft(kids: seq<Tree>, m: nat)
    requires m <= |kids|
    ensures |YieldAll(kids[m..])| > 0 ==> m < |kids|
  {}

  lemma {:induction false} ReadsKids(G: Grammar, A: Automaton, M: GotoMap, rd: Sets, r: nat, kids: seq<Tree>, p: seq<nat>, m: nat, i: nat)
    requires IsLR0(G, A) && GotosExact(G, A, M) && ReadsUp(G, A, M, rd) && G.IsRule(r) && r > 2
    requires WellFormed(G) && KidsOk(G, r, kids) && m <= |kids|
    requires OnTrack(G, A, p, r, m) && Numbered(M, i) && M.to[i] == p[m] && |YieldAll(kids[m..])| > 0
    ensures YieldAll(kids[m..])[0] in rd[i]
    decreases Node(r, kids), 0, |kids| - m
  {
    SomeLeft(kids, m);
    if m < |kids| {
      YieldAllTail(kids, m);
      hide IsLR0, WellFormed, GotosExact, ReadsUp, TreeOk, IsGoto, Yield, YieldAll, Body, Walk, InState;
      var t := TrackStep(G, A, p, r, m);
      assert Root(G, kids[m]) == Body(G, r)[m];
      if |Yield(kids[m])| > 0 {
        ReadsTree(G, A, M, rd, kids[m], i, t);
      } else {
        var k := NullableGoto(G, A, M, rd, kids[m], i, t);
        ReadsKids(G, A, M, rd, r, kids, p + [t], m + 1, k);
      }
    }
  }

  lemma TokenYields(G: Grammar, t: Tree)
    requires WellFormed(G) && TreeOk(G, t) && Yield(t) == []
    ensures Root(G, t) >= G.ntokens && NullableSymbol(G, Root(G, t)) && Root(G, t) < G.nsyms
  {
    match t
    case Leaf(_) =>
    case Node(r, kids) => RuleBounds(G, r);
  }

  lemma NumberOf(G: Grammar, A: Automaton, M: GotoMap, s: nat, x: nat, u: int) returns (k: nat)
    requires GotosExact(G, A, M) && IsNonterminal(G, x) && IsGoto(A, s, x, u)
    ensures Numbered(M, k) && M.from[k] == s && M.to[k] == u && SymbolOf(A, M, k) == x
  {
    assert Listed(G, M, s, x, u);
    k :| InSegment(G, M, x, k) && M.from[k] == s && M.to[k] == u;
  }

  /** A leafless tree after goto i leads over the reads relation. */
  lemma NullableGoto(G: Grammar, A: Automaton, M: GotoMap, rd: Sets, t: Tree, i: nat, u: int) returns (k: nat)
    requires IsLR0(G, A) && GotosExact(G, A, M) && ReadsUp(G, A, M, rd)
    requires Numbered(M, i) && TreeOk(G, t) && IsGoto(A, M.to[i], Root(G, t), u) && Yield(t) == []
    ensures Numbered(M, k) && M.to[k] == u && rd[k] <= rd[i]
  {
    TokenYields(G, t);
    hide IsLR0, WellFormed, TreeOk, IsGoto, NullableSymbol;
    k := NumberOf(G, A, M, M.to[i], Root(G, t), u);
    hide GotosExact;
    assert ReadsEdge(G, A, M, i, k);
  }

  /** In a rule for goto i, what comes next after the nonterminal at position m is in the Follow set of its goto:
      the first token of the rest of the rule, or else whatever follows i. */
  lemma FollowsInRule(G: Grammar, A: Automaton, M: GotoMap, rd: Sets, f: Sets, i: nat, r: nat, kids: seq<Tree>, p: seq<nat>, m: nat, k: nat, b: nat)
    requires IsLR0(G, A) && GotosExact(G, A, M) && ReadsUp(G, A, M, rd) && FollowsUp(G, A, M, rd, f)
    requires r > 2 && RuleFrom(G, A, M, i, r, p) && KidsOk(G, r, kids) && m < |kids| == |Body(G, r)| && b in f[i]
    requires IsNonterminal(G, Body(G, r)[m]) && Numbered(M, k) && M.from[k] == p[m] && M.to[k] == p[m + 1]
    requires OnTrack(G, A, p[..m + 2], r, m + 1)
    ensures var rest := YieldAll(kids[m + 1..]); (if rest == [] then b else rest[0]) in f[k]
  {
    assert WellFormed(G);
    hide IsLR0, WellFormed, TreeOk, IsGoto, GotosExact, OnTrack;
    if YieldAll(kids[m + 1..]) == [] {
      RestIsEmpty(G, r, kids, m + 1);
      hide RestVanishes, Walk;
      assert IncludesVia(G, A, M, k, i, r, m, p);
      assert IncludesEdge(G, A, M, k, i);
    } else {
      ReadsKids(G, A, M, rd, r, kids, p[..m + 2], m + 1, k);
    }
  }

  lemma RestIsEmpty(G: Grammar, r: nat, kids: seq<Tree>, m: nat)
    requires WellFormed(G) && KidsOk(G, r, kids) && m <= |kids| && YieldAll(kids[m..]) == []
    ensures RestVanishes(G, r, m)
  {
    hide WellFormed, TreeOk;
    YieldAllEmpty(kids[m..]);
    forall j: nat | m <= j < |Body(G, r)| ensures NullableSymbol(G, Body(G, r)[j]) {
      assert kids[m..][j - m] == kids[j];
      TokenYields(G, kids[j]);
      assert Root(G, kids[j]) == Body(G, r)[j];
    }
  }

  /** The goal in state 0 has number 0, and the end marker follows it. */
  lemma GoalFollow(G: Grammar, A: Automaton, M: GotoMap, rd: Sets, f: Sets) returns (u: nat)
    requires IsLR0(G, A) && GotosExact(G, A, M) && ReadsUp(G, A, M, rd) && FollowsUp(G, A, M, rd, f)
    ensures IsGoto(A, 0, G.Goal(), u) && Numbered(M, 0) && M.from[0] == 0 && SymbolOf(A, M, 0) == G.Goal() && 0 in f[0]
  {
    u := GoalGoto(G, A, M);
    assert DirectlyRead(G, A, M, 0, 0);
  }

  lemma GoalGoto(G: Grammar, A: Automaton, M: GotoMap) returns (u: nat)
    requires IsLR0(G, A) && GotosExact(G, A, M)
    ensures IsGoto(A, 0, G.Goal(), u) && Numbered(M, 0) && M.from[0] == 0 && SymbolOf(A, M, 0) == G.Goal()
  {
    assert 1 in A.kernel[0];
    KernelInState(G, A, 0, 1);
    u := Advance(G, A, 0, 1);
    var k := NumberOf(G, A, M, 0, G.Goal(), u);
    FirstIsGoal(G, A, M, k);
  }

  lemma FirstIsGoal(G: Grammar, A: Automaton, M: GotoMap, k: nat)
    requires IsLR0(G, A) && GotosExact(G, A, M) && k < Count(M) && M.from[k] == 0 && SymbolOf(A, M, k) == G.Goal()
    ensures k == 0
  {
    var x := GotoOf(G, A, M, k);
    var y := GotoOf(G, A, M, 0);
    var s, u: nat := M.from[0], M.to[0];
    assert IsGoto(A, s, y, u);
    var j: nat :| j < |A.shifts[s]| && A.shifts[s][j] == u;
    ShiftSymbol(G, A, s, j);
    assert y >= G.Goal();
    hide IsLR0, WellFormed, IsGoto;
    assert M.base[y - G.ntokens] == 0;
    assert M.base[1] <= M.base[y - G.ntokens];
    assert InSegment(G, M, G.Goal(), 0);
  }
}
