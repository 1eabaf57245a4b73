/** The lookahead sets are no larger than they should be: every token in them follows the reduced nonterminal in a
    sentential form that begins with a path of the automaton. */
module LalrExact {
  import opened Grammars
  import opened Relation
  import opened Items
  import opened Automata
  import opened Lr0
  import opened Nullables
  import opened Gotos
  import opened Digraphs
  import opened LalrSpec
  import opened LalrFollow

  // ----- Sentential forms -----

  /** One nonterminal is replaced by a right-hand side of it. */
  ghost predicate Rewrites(G: Grammar, z: seq<int>, y: seq<int>) {
    exists pre: seq<int>, r: int, post: seq<int> :: RewritesAt(G, z, y, pre, r, post)
  }

  ghost predicate RewritesAt(G: Grammar, z: seq<int>, y: seq<int>, pre: seq<int>, r: int, post: seq<int>) {
    G.IsRule(r) && z == pre + [G.rlhs[r]] + post && y == pre + Body(G, r) + post
  }

  /** `y` is derived from `$accept` in n steps. */
  ghost predicate Derived(G: Grammar, y: seq<int>, n: nat)
    decreases n
  {
    if n == 0 then y == [G.ntokens] else exists z: seq<int> :: Derived(G, z, n - 1) && Rewrites(G, z, y)
  }

  ghost predicate Sentential(G: Grammar, y: seq<int>) { exists n: nat :: Derived(G, y, n) }

  lemma Rewrite(G: Grammar, pre: seq<int>, r: int, post: seq<int>)
    requires G.IsRule(r) && Sentential(G, pre + [G.rlhs[r]] + post)
    ensures Sentential(G, pre + Body(G, r) + post)
  {
    var z, y := pre + [G.rlhs[r]] + post, pre + Body(G, r) + post;
    var n: nat :| Derived(G, z, n);
    assert RewritesAt(G, z, y, pre, r, post);
    assert Derived(G, z, n + 1 - 1) && Rewrites(G, z, y);
    assert Derived(G, y, n + 1);
  }

  /** The first symbol of a rest of `b` may be counted with what is before it or with what is after it. */
  lemma SplitAt(s: seq<int>, b: seq<int>, d: nat, post: seq<int>)
    requires d < |b|
    ensures s + b[d..] + post == s + [b[d]] + (b[d + 1..] + post)
    ensures s + b[d..] + post == (s + [b[d]]) + b[d + 1..] + post
    ensures s + (b[d + 1..] + post) == s + b[d + 1..] + post
  {
    assert b[d..] == [b[d]] + b[d + 1..];
  }

  /** A symbol with a tree that has no leaves can be left out of a sentential form. */
  lemma {:induction false} TreeVanishes(G: Grammar, pre: seq<int>, t: Tree, post: seq<int>)
    requires WellFormed(G) && TreeOk(G, t) && Yield(t) == [] && Sentential(G, pre + [Root(G, t)] + post)
    ensures Sentential(G, pre + post)
    decreases t, 0
  {
    match t
    case Leaf(_) => assert false;
    case Node(r, kids) =>
      BodyIsRoots(G, r, kids);
      YieldAllEmpty(kids);
      Rewrite(G, pre, r, post);
      assert Body(G, r)[..|kids|] == Body(G, r);
      KidsVanish(G, pre, Body(G, r), kids, |kids|, post);
  }

  lemma BodyIsRoots(G: Grammar, r: nat, kids: seq<Tree>)
    requires WellFormed(G) && TreeOk(G, Node(r, kids))
    ensures G.IsRule(r) && Root(G, Node(r, kids)) == G.rlhs[r] && |Body(G, r)| == |kids|
    ensures forall k :: 0 <= k < |kids| ==> Body(G, r)[k] == Root(G, kids[k]) && TreeOk(G, kids[k])
  {
    BodyLength(G, r);
  }

  lemma KidsVanish(G: Grammar, pre: seq<int>, b: seq<int>, kids: seq<Tree>, m: nat, post: seq<int>)
    requires WellFormed(G) && m <= |kids| == |b| && Sentential(G, pre + b[..m] + post)
    requires forall k :: 0 <= k < |kids| ==> b[k] == Root(G, kids[k]) && TreeOk(G, kids[k]) && Yield(kids[k]) == []
    ensures Sentential(G, pre + post)
    decreases kids, 1, m
  {
    hide Sentential, TreeOk, Yield, WellFormed;
    LastOf(pre, b, m, post);
    if m > 0 {
      TreeVanishes(G, pre + b[..m - 1], kids[m - 1], post);
      KidsVanish(G, pre, b, kids, m - 1, post);
    }
  }

  lemma LastOf(pre: seq<int>, b: seq<int>, m: nat, post: seq<int>)
    requires m <= |b|
    ensures m == 0 ==> pre + b[..m] + post == pre + post
    ensures m > 0 ==> pre + b[..m] + post == pre + b[..m - 1] + [b[m - 1]] + post
  {
    if m == 0 { assert pre + b[..0] == pre; } else { assert b[..m] == b[..m - 1] + [b[m - 1]]; }
  }

  lemma SymbolVanishes(G: Grammar, pre: seq<int>, x: int, post: seq<int>)
    requires WellFormed(G) && NullableSymbol(G, x) && Sentential(G, pre + [x] + post)
    ensures Sentential(G, pre + post)
  {
    var t :| TreeOk(G, t) && Root(G, t) == x && Yield(t) == [];
    TreeVanishes(G, pre, t, post);
  }

  /** So can the end of a rule that vanishes. */
  lemma {:induction false} RestLeftOut(G: Grammar, pre: seq<int>, r: nat, m: nat, post: seq<int>)
    requires WellFormed(G) && m <= |Body(G, r)| && RestVanishes(G, r, m) && Sentential(G, pre + Body(G, r)[m..] + post)
    ensures Sentential(G, pre + post)
    decreases |Body(G, r)| - m
  {
    hide Sentential, Body, NullableSymbol;
    var b := Body(G, r);
    if m == |b| {
      assert pre + b[m..] == pre;
    } else {
      SplitAt(pre, b, m, post);
      SymbolVanishes(G, pre, b[m], b[m + 1..] + post);
      RestLeftOut(G, pre, r, m + 1, post);
    }
  }

  // ----- Items and paths -----

  /** The symbols read along a path. */
  function Spelled(A: Automaton, p: seq<int>): seq<int> {
    if |p| <= 1 then []
    else Spelled(A, p[..|p| - 1]) + [if 0 <= p[|p| - 1] < |A.acc| then A.acc[p[|p| - 1]] else -1]
  }

  lemma SpelledMore(A: Automaton, p: seq<int>, t: nat)
    requires |p| > 0 && t < |A.acc|
    ensures Spelled(A, p + [t]) == Spelled(A, p) + [A.acc[t]]
  {
    assert (p + [t])[..|p|] == p;
  }

  lemma PathMore(G: Grammar, A: Automaton, p: seq<int>, x: int, t: nat)
    requires IsLR0(G, A) && IsPath(A, p) && IsGoto(A, p[|p| - 1], x, t)
    ensures IsPath(A, p + [t]) && Spelled(A, p + [t]) == Spelled(A, p) + [x]
  {
    SpelledMore(A, p, t);
  }

  /** The path, the rest of the rule and something after it make a sentential form. */
  ghost predicate Viable(G: Grammar, A: Automaton, p: seq<int>, r: nat, d: nat) {
    d <= |Body(G, r)| && exists post: seq<int> :: Sentential(G, Spelled(A, p) + Body(G, r)[d..] + post)
  }

  ghost predicate ViableSymbol(G: Grammar, A: Automaton, p: seq<int>, x: int) {
    exists post: seq<int> :: Sentential(G, Spelled(A, p) + [x] + post)
  }

  ghost predicate ViableVar(G: Grammar, A: Automaton, p: seq<int>, v: nat) { ViableSymbol(G, A, p, v + G.ntokens) }

  lemma ItemBody(G: Grammar, i: nat, r: nat)
    requires WellFormed(G) && G.ItemOf(i, r)
    ensures |Body(G, r)| == G.rrhs[r + 1] - 1 - G.rrhs[r] && i - G.rrhs[r] <= |Body(G, r)|
    ensures i - G.rrhs[r] < |Body(G, r)| <==> G.ritem[i] >= 0
    ensures i - G.rrhs[r] < |Body(G, r)| ==> Body(G, r)[i - G.rrhs[r]] == G.ritem[i]
  {
    assert RuleOk(G, r);
    if i < G.rrhs[r + 1] - 1 { assert SymbolOk(G, r, G.ritem[i]); }
  }

  lemma NextIsViable(G: Grammar, A: Automaton, p: seq<int>, r: nat, d: nat)
    requires Viable(G, A, p, r, d) && d < |Body(G, r)|
    ensures ViableSymbol(G, A, p, Body(G, r)[d])
  {
    var post: seq<int> :| Sentential(G, Spelled(A, p) + Body(G, r)[d..] + post);
    SplitAt(Spelled(A, p), Body(G, r), d, post);
  }

  lemma RuleIsViable(G: Grammar, A: Automaton, p: seq<int>, r: nat)
    requires G.IsRule(r) && ViableSymbol(G, A, p, G.rlhs[r])
    ensures Viable(G, A, p, r, 0)
  {
    var post: seq<int> :| Sentential(G, Spelled(A, p) + [G.rlhs[r]] + post);
    Rewrite(G, Spelled(A, p), r, post);
    assert Body(G, r)[0..] == Body(G, r);
  }

  /** The augmented rule. */
  lemma GoalIsViable(G: Grammar, A: Automaton)
    requires WellFormed(G)
    ensures Sentential(G, [G.Goal(), 0]) && Body(G, 2) == [G.Goal(), 0] && Viable(G, A, [0], 2, 0)
  {
    assert RuleOk(G, 2);
    assert Body(G, 2) == [G.Goal(), 0];
    assert Derived(G, [G.ntokens], 0);
    assert [] + [G.ntokens] + [] == [G.ntokens];
    assert G.rlhs[2] == G.ntokens;
    Rewrite(G, [], 2, []);
    assert [] + Body(G, 2) + [] == [G.Goal(), 0];
    assert Spelled(A, [0]) + Body(G, 2)[0..] + [] == [G.Goal(), 0];
  }

  /** Every item of the last state of a path is viable after it. */
  lemma {:induction false} ItemIsViable(G: Grammar, A: Automaton, p: seq<int>, i: nat, r: nat)
    requires IsLR0(G, A) && IsPath(A, p) && InState(G, A, p[|p| - 1], i) && G.ItemOf(i, r)
    ensures Viable(G, A, p, r, i - G.rrhs[r])
    decreases |p|, 2
  {
    var s := p[|p| - 1];
    if i in A.kernel[s] {
      KernelIsViable(G, A, p, i, r);
    } else {
      var q: nat :| BroughtIn(G, Kernel(A, s), q) && i == G.rrhs[q];
      RuleBounds(G, q);
      RuleUnique(G, i, r, q);
      CalledIsViable(G, A, p, r);
      RuleIsViable(G, A, p, r);
    }
  }

  lemma KernelIsViable(G: Grammar, A: Automaton, p: seq<int>, i: nat, r: nat)
    requires IsLR0(G, A) && IsPath(A, p) && i in A.kernel[p[|p| - 1]] && G.ItemOf(i, r)
    ensures Viable(G, A, p, r, i - G.rrhs[r])
    decreases |p|, 0
  {
    hide Viable;
    if |p| == 1 {
      FirstKernel(G, A, p, i, r);
      GoalIsViable(G, A);
    } else {
      RuleBefore(G, A, p, i, r);
      hide WellFormed, StateOk, InState, Spelled, Body;
      PathPrefix(A, p, |p| - 1);
      ItemIsViable(G, A, p[..|p| - 1], i - 1, r);
      MoveOn(G, A, p, i, r);
    }
  }

  lemma FirstKernel(G: Grammar, A: Automaton, p: seq<int>, i: nat, r: nat)
    requires IsLR0(G, A) && IsPath(A, p) && |p| == 1 && i in A.kernel[p[0]] && G.ItemOf(i, r)
    ensures p == [0] && i == 1 && r == 2 && G.rrhs[2] == 1
  {
    RuleUnique(G, 1, r, 2);
  }

  /** The item from which a kernel item has been moved on belongs to the same rule. */
  lemma RuleBefore(G: Grammar, A: Automaton, p: seq<int>, i: nat, r: nat)
    requires IsLR0(G, A) && IsPath(A, p) && |p| > 1 && i in A.kernel[p[|p| - 1]] && G.ItemOf(i, r)
    ensures WellFormed(G) && i > 0 && G.ItemOf(i - 1, r) && InState(G, A, p[|p| - 2], i - 1) && G.ritem[i - 1] == A.acc[p[|p| - 1]]
  {
    KernelItem(G, A, p, i);
    EnteredBySymbol(G, A, p);
    hide StateOk, InState;
    var q := FindRule(G, i - 1, |G.rlhs|);
    SameRule(G, i, r, q);
  }

  lemma SameRule(G: Grammar, i: nat, r: nat, q: nat)
    requires WellFormed(G) && i > 0 && G.ItemOf(i, r) && G.ItemOf(i - 1, q) && G.ritem[i - 1] > 0
    ensures q == r
  {
    EndOfRule(G, i - 1, q);
    assert RuleOk(G, q);
    RuleUnique(G, i, r, q);
  }

  lemma MoveOn(G: Grammar, A: Automaton, p: seq<int>, i: nat, r: nat)
    requires WellFormed(G) && IsPath(A, p) && |p| > 1 && i > 0 && G.ItemOf(i, r) && G.ItemOf(i - 1, r) && G.ritem[i - 1] == A.acc[p[|p| - 1]]
    requires Viable(G, A, p[..|p| - 1], r, i - 1 - G.rrhs[r])
    ensures Viable(G, A, p, r, i - G.rrhs[r])
  {
    ItemBody(G, i - 1, r);
    ItemBody(G, i, r);
    var b, d := Body(G, r), i - 1 - G.rrhs[r];
    assert Spelled(A, p) == Spelled(A, p[..|p| - 1]) + [b[d]];
    hide WellFormed, IsPath, Body, Spelled;
    ViableMovesOn(G, A, p[..|p| - 1], p, r, d);
  }

  lemma ViableMovesOn(G: Grammar, A: Automaton, p: seq<int>, p': seq<int>, r: nat, d: nat)
    requires Viable(G, A, p, r, d) && d < |Body(G, r)| && Spelled(A, p') == Spelled(A, p) + [Body(G, r)[d]]
    ensures Viable(G, A, p', r, d + 1)
  {
    hide Body, Spelled, Sentential;
    var post: seq<int> :| Sentential(G, Spelled(A, p) + Body(G, r)[d..] + post);
    SplitAt(Spelled(A, p), Body(G, r), d, post);
  }

  /** The left side of a rule brought in by the closure. */
  lemma CalledIsViable(G: Grammar, A: Automaton, p: seq<int>, r: nat)
    requires IsLR0(G, A) && IsPath(A, p) && BroughtIn(G, Kernel(A, p[|p| - 1]), r)
    ensures ViableSymbol(G, A, p, G.rlhs[r])
    decreases |p|, 1
  {
    hide Viable, ViableSymbol, LeftRel, Reach, StateOk, BroughtIn, WellFormed, Body;
    var k, q := Caller(G, Kernel(A, p[|p| - 1]), r);
    KernelIsViable(G, A, p, k, q);
    NextIsViable(G, A, p, q, k - G.rrhs[q]);
    LeftsAreViable(G, A, p, G.ritem[k] - G.ntokens, G.rlhs[r] - G.ntokens);
  }

  lemma Caller(G: Grammar, K: set<int>, r: nat) returns (k: nat, q: nat)
    requires WellFormed(G) && AreItems(G, K) && BroughtIn(G, K, r)
    ensures k in K && k < |G.ritem| && G.ItemOf(k, q) && r < |G.rlhs| && G.ritem[k] >= G.ntokens && G.rlhs[r] >= G.ntokens
    ensures k - G.rrhs[q] < |Body(G, q)| && Body(G, q)[k - G.rrhs[q]] == G.ritem[k]
    ensures Reach(LeftRel(G), G.ritem[k] - G.ntokens, G.rlhs[r] - G.ntokens)
  {
    hide LeftRel, Reach;
    RuleBounds(G, r);
    k :| k in K && G.IsVar(G.ritem[k]) && Reach(LeftRel(G), G.ritem[k] - G.ntokens, G.rlhs[r] - G.ntokens);
    q := FindRule(G, k, |G.rlhs|);
    ItemBody(G, k, q);
  }

  lemma LeftsAreViable(G: Grammar, A: Automaton, p: seq<int>, v: nat, w: nat)
    requires WellFormed(G) && Reach(LeftRel(G), v, w) && ViableSymbol(G, A, p, v + G.ntokens)
    ensures ViableSymbol(G, A, p, w + G.ntokens)
  {
    hide ViableSymbol, Viable, Reach;
    var X := iset u: nat | ViableVar(G, A, p, u);
    forall a: nat, b: nat | a in X && Edge(LeftRel(G), a, b) ensures b in X {
      var q: nat :| LeftStep(G, q, a, b);
      RuleIsViable(G, A, p, q);
      RuleBounds(G, q);
      ItemBody(G, G.rrhs[q], q);
      NextIsViable(G, A, p, q, 0);
    }
    ReachStaysIn(LeftRel(G), X, v, w);
  }

  /** Whatever the automaton can shift after a path continues a sentential form. */
  lemma ShiftIsViable(G: Grammar, A: Automaton, p: seq<int>, x: int, t: nat)
    requires IsLR0(G, A) && IsPath(A, p) && IsGoto(A, p[|p| - 1], x, t)
    ensures ViableSymbol(G, A, p, x)
  {
    hide Viable, ViableSymbol;
    var i := ShiftItem(G, A, p[|p| - 1], x, t);
    var r := FindRule(G, i, |G.rlhs|);
    ItemIsViable(G, A, p, i, r);
    ItemBody(G, i, r);
    NextIsViable(G, A, p, r, i - G.rrhs[r]);
  }

  lemma ShiftItem(G: Grammar, A: Automaton, s: nat, x: int, t: nat) returns (i: nat)
    requires IsLR0(G, A) && IsGoto(A, s, x, t)
    ensures s < A.NStates() && IsItem(G, i) && InState(G, A, s, i) && G.ritem[i] == x >= 0
  {
    hide WellFormed, InState;
    assert StateOk(G, A, s);
    var k :| 0 <= k < |A.shifts[s]| && A.shifts[s][k] == t;
    assert GotoOk(G, A, s, A.shifts[s][k]);
    var j :| Shifted(G, A, s, A.acc[t], j);
    i := j - 1;
  }

  // ----- What can follow a goto -----

  /** After this path, symbol x may be followed by token a. */
  ghost predicate CanFollow(G: Grammar, A: Automaton, p: seq<int>, x: int, a: int) {
    exists post: seq<int> :: Sentential(G, Spelled(A, p) + [x, a] + post)
  }

  /** ... after any path to the goto. */
  ghost predicate AlwaysFollows(G: Grammar, A: Automaton, M: GotoMap, i: nat, a: int) {
    Numbered(M, i) && forall p: seq<int> :: IsPath(A, p) && p[|p| - 1] == M.from[i] ==> CanFollow(G, A, p, SymbolOf(A, M, i), a)
  }

  /** ... after some path to the goto. */
  ghost predicate SometimesFollows(G: Grammar, A: Automaton, M: GotoMap, i: nat, a: int) {
    Numbered(M, i) && exists p: seq<int> :: IsPath(A, p) && p[|p| - 1] == M.from[i] && CanFollow(G, A, p, SymbolOf(A, M, i), a)
  }

  lemma AppendPair(s: seq<int>, x: int, a: int, post: seq<int>)
    ensures s + [x, a] + post == s + [x] + ([a] + post) == s + [x] + [a] + post
  {
    assert [x, a] == [x] + [a];
  }

  lemma DirectFollows(G: Grammar, A: Automaton, M: GotoMap, i: nat, a: int)
    requires IsLR0(G, A) && GotosExact(G, A, M) && DirectlyRead(G, A, M, i, a)
    ensures AlwaysFollows(G, A, M, i, a)
  {
    hide WellFormed, GotosExact, Sentential;
    var x := LalrSpec.GotoOf(G, A, M, i);
    forall p: seq<int> | IsPath(A, p) && p[|p| - 1] == M.from[i] ensures CanFollow(G, A, p, x, a) {
      if HasTarget(A, M.to[i], a) {
        PathMore(G, A, p, x, M.to[i]);
        var t := TargetOf(A, M.to[i], a);
        ShiftIsViable(G, A, p + [M.to[i]], a, t);
        var post: seq<int> :| Sentential(G, Spelled(A, p + [M.to[i]]) + [a] + post);
        AppendPair(Spelled(A, p), x, a, post);
      } else {
        GoalFollowed(G, A, M, p);
      }
    }
  }

  lemma GoalFollowed(G: Grammar, A: Automaton, M: GotoMap, p: seq<int>)
    requires IsLR0(G, A) && GotosExact(G, A, M) && IsPath(A, p) && Numbered(M, 0) && p[|p| - 1] == M.from[0]
    ensures CanFollow(G, A, p, SymbolOf(A, M, 0), 0)
  {
    hide StateOk, WellFormed, GotosExact, Sentential, Body;
    var u := GoalGoto(G, A, M);
    if |p| > 1 { NotToZero(G, A, p); }
    assert p == [0];
    GoalIsViable(G, A);
    assert Spelled(A, p) + [G.Goal(), 0] + [] == [G.Goal(), 0];
  }

  /** State 0 is never entered. */
  lemma NotToZero(G: Grammar, A: Automaton, p: seq<int>)
    requires IsLR0(G, A) && IsPath(A, p) && |p| > 1
    ensures p[|p| - 1] != 0
  {
    EnteredBySymbol(G, A, p);
  }

  /** Over a nullable nonterminal. */
  lemma FollowsOver(G: Grammar, A: Automaton, M: GotoMap, i: nat, k: nat, a: int)
    requires IsLR0(G, A) && GotosExact(G, A, M) && ReadsEdge(G, A, M, i, k) && AlwaysFollows(G, A, M, k, a)
    ensures AlwaysFollows(G, A, M, i, a)
  {
    hide WellFormed, GotosExact, Sentential, NullableSymbol;
    var x := LalrSpec.GotoOf(G, A, M, i);
    var c := SymbolOf(A, M, k);
    forall p: seq<int> | IsPath(A, p) && p[|p| - 1] == M.from[i] ensures CanFollow(G, A, p, x, a) {
      PathMore(G, A, p, x, M.to[i]);
      var post: seq<int> :| Sentential(G, Spelled(A, p + [M.to[i]]) + [c, a] + post);
      AppendPair(Spelled(A, p) + [x], c, a, post);
      SymbolVanishes(G, Spelled(A, p) + [x], c, [a] + post);
      AppendPair(Spelled(A, p), x, a, post);
    }
  }

  /** From the goto of a rule's left side to that of a symbol with nothing but vanishing ones after it. */
  lemma FollowsInside(G: Grammar, A: Automaton, M: GotoMap, k: nat, i: nat, a: int)
    requires IsLR0(G, A) && GotosExact(G, A, M) && IncludesEdge(G, A, M, k, i) && SometimesFollows(G, A, M, i, a)
    ensures SometimesFollows(G, A, M, k, a)
  {
    assert WellFormed(G);
    hide IsLR0, GotosExact, IncludesVia, IsPath, CanFollow, WellFormed;
    var r: nat, m: nat, w :| IncludesVia(G, A, M, k, i, r, m, w);
    var p := PathBefore(G, A, M, i, a);
    FollowsVia(G, A, M, k, i, r, m, w, p, a);
  }

  lemma PathBefore(G: Grammar, A: Automaton, M: GotoMap, i: nat, a: int) returns (p: seq<int>)
    requires SometimesFollows(G, A, M, i, a)
    ensures IsPath(A, p) && |p| > 0 && i < |M.from| && p[|p| - 1] == M.from[i] && CanFollow(G, A, p, SymbolOf(A, M, i), a)
  {
    hide CanFollow;
    p :| IsPath(A, p) && p[|p| - 1] == M.from[i] && CanFollow(G, A, p, SymbolOf(A, M, i), a);
  }

  lemma FollowsVia(G: Grammar, A: Automaton, M: GotoMap, k: nat, i: nat, r: nat, m: nat, w: seq<nat>, p: seq<int>, a: int)
    requires WellFormed(G) && IsLR0(G, A) && IncludesVia(G, A, M, k, i, r, m, w)
    requires IsPath(A, p) && |p| > 0 && i < |M.from| && p[|p| - 1] == M.from[i] && CanFollow(G, A, p, SymbolOf(A, M, i), a)
    ensures SometimesFollows(G, A, M, k, a)
  {
    hide IsLR0, WellFormed, IsPath, CanFollow, Body, Spelled, RestVanishes;
    WalkOn(G, A, p, w, Body(G, r), m);
    var p' := p + w[1..m + 1];
    InsideRule(G, A, p, p', r, m, a);
    assert IsGoto(A, w[m], Body(G, r)[m], w[m + 1]);
    assert p'[|p'| - 1] == w[m];
  }

  lemma InsideRule(G: Grammar, A: Automaton, p: seq<int>, p': seq<int>, r: nat, m: nat, a: int)
    requires WellFormed(G) && G.IsRule(r) && m < |Body(G, r)| && RestVanishes(G, r, m + 1)
    requires CanFollow(G, A, p, G.rlhs[r], a) && Spelled(A, p') == Spelled(A, p) + Body(G, r)[..m]
    ensures CanFollow(G, A, p', Body(G, r)[m], a)
  {
    hide Sentential, RestVanishes;
    var b, s := Body(G, r), Spelled(A, p);
    var post: seq<int> :| Sentential(G, s + [G.rlhs[r], a] + post);
    AppendPair(s, G.rlhs[r], a, post);
    Rewrite(G, s, r, [a] + post);
    var pre := Spelled(A, p') + [b[m]];
    assert s + b + ([a] + post) == pre + b[m + 1..] + ([a] + post);
    RestLeftOut(G, pre, r, m + 1, [a] + post);
    AppendPair(Spelled(A, p'), b[m], a, post);
  }

  /** A walk goes on from a path. */
  lemma {:induction false} WalkOn(G: Grammar, A: Automaton, p: seq<int>, w: seq<nat>, b: seq<int>, m: nat)
    requires IsLR0(G, A) && IsPath(A, p) && Walk(A, w, b) && m <= |b| && w[0] == p[|p| - 1]
    ensures IsPath(A, p + w[1..m + 1]) && (p + w[1..m + 1])[|p| + m - 1] == w[m]
    ensures Spelled(A, p + w[1..m + 1]) == Spelled(A, p) + b[..m]
    decreases m
  {
    hide IsLR0, Spelled;
    if m == 0 {
      assert p + w[1..1] == p;
    } else {
      WalkOn(G, A, p, w, b, m - 1);
      assert IsGoto(A, w[m - 1], b[m - 1], w[m]);
      PathMore(G, A, p + w[1..m], b[m - 1], w[m]);
      assert p + w[1..m] + [w[m]] == p + w[1..m + 1];
    }
  }

  lemma {:induction false} SomePath(G: Grammar, A: Automaton, t: nat) returns (p: seq<int>)
    requires IsLR0(G, A) && AllReached(A) && t < A.NStates()
    ensures IsPath(A, p) && p[|p| - 1] == t
    decreases t
  {
    p := [0];
    if t > 0 {
      assert IsTarget(A, t, |A.shifts|);
      var s: nat :| s < |A.shifts| && s < t && t in A.shifts[s];
      p := SomePath(G, A, s);
      p := p + [t];
    }
  }

  /** The tokens that follow a goto on every path, or on some. */
  ghost function AlwaysSets(G: Grammar, A: Automaton, M: GotoMap): (f: Sets)
    ensures |f| == Count(M)
    ensures forall i: nat, a :: i < |f| ==> (a in f[i] <==> 0 <= a < G.ntokens && AlwaysFollows(G, A, M, i, a))
  {
    seq(Count(M), i requires 0 <= i < Count(M) => set a | 0 <= a < G.ntokens && AlwaysFollows(G, A, M, i, a))
  }

  ghost function SometimesSets(G: Grammar, A: Automaton, M: GotoMap): (f: Sets)
    ensures |f| == Count(M)
    ensures forall i: nat, a :: i < |f| ==> (a in f[i] <==> 0 <= a < G.ntokens && SometimesFollows(G, A, M, i, a))
  {
    seq(Count(M), i requires 0 <= i < Count(M) => set a | 0 <= a < G.ntokens && SometimesFollows(G, A, M, i, a))
  }

  /** The Read sets hold only what follows a goto on any path to it. */
  lemma ReadsFollow(G: Grammar, A: Automaton, M: GotoMap, rd: Sets)
    requires IsLR0(G, A) && GotosExact(G, A, M) && ReadSets(G, A, M, rd)
    ensures |rd| == Count(M) && forall i: nat :: i < |rd| ==> rd[i] <= AlwaysSets(G, A, M)[i]
  {
    var R :| IsReads(G, A, M, R) && Closed(R, DirectReads(G, A, M), rd);
    hide *;
    ReadsPresolve(G, A, M, R);
    ReadsValid(G, A, M, R);
    LeastWithin(R, DirectReads(G, A, M), rd, AlwaysSets(G, A, M));
  }

  lemma ReadsValid(G: Grammar, A: Automaton, M: GotoMap, R: Rel)
    requires WellFormed(G) && IsReads(G, A, M, R)
    ensures ValidRel(R) && |R| == Count(M)
  {}

  lemma LeastWithin(R: Rel, f0: Sets, f: Sets, g: Sets)
    requires ValidRel(R) && |f0| == |R| && Closed(R, f0, f) && PreSolution(R, f0, g)
    ensures |f| == |g| == |f0| && forall i: nat :: i < |f| ==> f[i] <= g[i]
  {
    ClosedSize(R, f0, f);
    ClosedIsLeastSolution(R, f0, f);
  }

  lemma ReadsPresolve(G: Grammar, A: Automaton, M: GotoMap, R: Rel)
    requires IsLR0(G, A) && GotosExact(G, A, M) && IsReads(G, A, M, R)
    ensures PreSolution(R, DirectReads(G, A, M), AlwaysSets(G, A, M))
  {
    hide StateOk, WellFormed, GotosExact, AlwaysFollows, ReadsEdge, DirectlyRead, ValidRel;
    var f, g := DirectReads(G, A, M), AlwaysSets(G, A, M);
    forall i: nat | i < |g| ensures f[i] <= g[i] {
      forall a | a in f[i] ensures a in g[i] {
        ReadIsToken(G, A, M, i, a);
        DirectFollows(G, A, M, i, a);
      }
    }
    forall i: nat, k: nat | Edge(R, i, k) && k < |g| ensures i < |g| && g[k] <= g[i] {
      EdgeBound(G, A, M, i, k);
      forall a | a in g[k] ensures a in g[i] { FollowsOver(G, A, M, i, k, a); }
    }
  }

  lemma ReadIsToken(G: Grammar, A: Automaton, M: GotoMap, i: nat, a: int)
    requires DirectlyRead(G, A, M, i, a)
    ensures 0 <= a < G.ntokens
  {}

  lemma EdgeBound(G: Grammar, A: Automaton, M: GotoMap, i: nat, k: nat)
    requires WellFormed(G) && ReadsEdge(G, A, M, i, k)
    ensures i < Count(M) && k < Count(M)
  {}

  /** The Follow sets hold only what follows a goto on some path to it. */
  lemma FollowsAreReal(G: Grammar, A: Automaton, M: GotoMap, f: Sets)
    requires IsLR0(G, A) && AllReached(A) && GotosExact(G, A, M) && FollowSets(G, A, M, f)
    ensures |f| == Count(M) && forall i: nat, a :: i < |f| && a in f[i] ==> SometimesFollows(G, A, M, i, a)
  {
    var rd, R :| ReadSets(G, A, M, rd) && IsIncludes(G, A, M, R) && Closed(R, rd, f);
    ReadsFollow(G, A, M, rd);
    hide *;
    IncludesPresolve(G, A, M, R, rd);
    IncludesValid(G, A, M, R);
    LeastWithin(R, rd, f, SometimesSets(G, A, M));
  }

  lemma IncludesValid(G: Grammar, A: Automaton, M: GotoMap, R: Rel)
    requires WellFormed(G) && IsIncludes(G, A, M, R)
    ensures ValidRel(R) && |R| == Count(M)
  {}

  lemma IncludesPresolve(G: Grammar, A: Automaton, M: GotoMap, R: Rel, rd: Sets)
    requires IsLR0(G, A) && AllReached(A) && GotosExact(G, A, M) && IsIncludes(G, A, M, R)
    requires |rd| == Count(M) && forall i: nat :: i < |rd| ==> rd[i] <= AlwaysSets(G, A, M)[i]
    ensures PreSolution(R, rd, SometimesSets(G, A, M))
  {
    hide StateOk, WellFormed, GotosExact, AlwaysFollows, SometimesFollows, IncludesEdge, AllReached, ValidRel;
    var g := SometimesSets(G, A, M);
    forall i: nat | i < |g| ensures rd[i] <= g[i] {
      forall a | a in rd[i] ensures a in g[i] {
        assert a in AlwaysSets(G, A, M)[i];
        AlwaysIsSometimes(G, A, M, i, a);
      }
    }
    forall k: nat, i: nat | Edge(R, k, i) && i < |g| ensures k < |g| && g[i] <= g[k] {
      IncludesBound(G, A, M, k, i);
      forall a | a in g[i] ensures a in g[k] { FollowsInside(G, A, M, k, i, a); }
    }
  }

  lemma IncludesBound(G: Grammar, A: Automaton, M: GotoMap, k: nat, i: nat)
    requires WellFormed(G) && IncludesEdge(G, A, M, k, i)
    ensures i < Count(M) && k < Count(M)
  {}

  lemma AlwaysIsSometimes(G: Grammar, A: Automaton, M: GotoMap, i: nat, a: int)
    requires IsLR0(G, A) && AllReached(A) && GotosExact(G, A, M) && i < Count(M) && AlwaysFollows(G, A, M, i, a)
    ensures SometimesFollows(G, A, M, i, a)
  {
    hide WellFormed, GotosExact, CanFollow, AllReached, StateOk;
    var x := LalrSpec.GotoOf(G, A, M, i);
    var p := SomePath(G, A, M.from[i]);
  }

  // ----- Main result -----

  /** Where state q reduces by rule r with token a in the lookahead set, there is a path to q that spells the rule's right
      side after some `pre`, and a sentential form in which `pre`, the left side and then a come first. */
  lemma LookaheadIsReal(G: Grammar, A: Automaton, M: GotoMap, f: Sets, q: nat, r: nat, a: int)
    returns (p: seq<int>, pre: seq<int>, post: seq<int>)
    requires IsLR0(G, A) && AllReached(A) && GotosExact(G, A, M) && FollowSets(G, A, M, f) && InLookahead(G, A, M, f, q, r, a)
    ensures IsPath(A, p) && p[|p| - 1] == q && G.IsRule(r) && Spelled(A, p) == pre + Body(G, r)
    ensures Sentential(G, pre + [G.rlhs[r], a] + post)
  {
    hide IsLR0, AllReached, GotosExact, FollowSets, Lookback, SometimesFollows, Sentential, Spelled, IsPath;
    var i: nat :| i < |f| && Lookback(G, A, M, q, r, i) && a in f[i];
    FollowsAreReal(G, A, M, f);
    p, pre, post := LookbackIsReal(G, A, M, q, r, i, a);
  }

  lemma LookbackIsReal(G: Grammar, A: Automaton, M: GotoMap, q: nat, r: nat, i: nat, a: int)
    returns (p: seq<int>, pre: seq<int>, post: seq<int>)
    requires IsLR0(G, A) && Lookback(G, A, M, q, r, i) && SometimesFollows(G, A, M, i, a)
    ensures IsPath(A, p) && p[|p| - 1] == q && G.IsRule(r) && Spelled(A, p) == pre + Body(G, r)
    ensures Sentential(G, pre + [G.rlhs[r], a] + post)
  {
    hide IsLR0, Sentential, Spelled;
    var w :| RuleFrom(G, A, M, i, r, w) && w[|Body(G, r)|] == q;
    var p0: seq<int> :| IsPath(A, p0) && p0[|p0| - 1] == M.from[i] && CanFollow(G, A, p0, SymbolOf(A, M, i), a);
    var n := |Body(G, r)|;
    WalkOn(G, A, p0, w, Body(G, r), n);
    p, pre := p0 + w[1..n + 1], Spelled(A, p0);
    assert Body(G, r)[..n] == Body(G, r);
    post :| Sentential(G, pre + [G.rlhs[r], a] + post);
  }
}
