/** LALR(1) lookaheads (lalr.c): the Read and Follow sets by two runs of digraph, then for each reduction the
    union of the Follow sets of its lookback gotos. */
module Lalr {
  import opened Grammars
  import opened Relation
  import opened Automata
  import opened Lr0Spec
  import opened Nullables
  import opened Digraphs
  import opened Gotos
  import opened LalrSpec
  import opened LalrReads
  import opened LalrIncludes

  /** Entry idx of LA is the lookahead set of its state and rule. */
  ghost predicate LaExact(G: Grammar, A: Automaton, M: GotoMap, f: Sets, la: seq<nat>, rn: seq<int>, LA: Sets) {
    && |LA| == |rn|
    && forall s: nat, idx: nat :: InRow(la, s, idx) && idx < |rn| ==> LaSet(G, A, M, f, s, rn[idx], LA[idx])
  }

  ghost predicate LaSet(G: Grammar, A: Automaton, M: GotoMap, f: Sets, s: nat, r: int, set_: set<int>) {
    r >= 0 && forall a :: a in set_ <==> InLookahead(G, A, M, f, s, r, a)
  }

  /** The union of some of the sets. */
  ghost predicate IsUnion(f: Sets, gotos: seq<nat>, n: nat, u: set<int>) {
    n <= |gotos| && forall a :: a in u <==> InUnion(f, gotos, n, a)
  }

  ghost predicate InUnion(f: Sets, gotos: seq<nat>, n: nat, a: int)
    requires n <= |gotos|
  {
    exists k: nat :: k < n && gotos[k] < |f| && a in f[gotos[k]]
  }

  lemma UnionMore(f: Sets, gotos: seq<nat>, n: nat, u: set<int>)
    requires IsUnion(f, gotos, n, u) && n < |gotos| && gotos[n] < |f|
    ensures IsUnion(f, gotos, n + 1, u + f[gotos[n]])
  {
    var u' := u + f[gotos[n]];
    forall a ensures a in u' <==> InUnion(f, gotos, n + 1, a) {
      assert a in u <==> InUnion(f, gotos, n, a);
      if a in f[gotos[n]] { assert n < n + 1; }
    }
  }

  /** All lookback entries are gotos. */
  ghost predicate LookbackInRange(lookback: seq<seq<nat>>, n: nat) {
    forall i, k :: 0 <= i < |lookback| && 0 <= k < |lookback[i]| ==> lookback[i][k] < n
  }

  /** compute_lookaheads */
  method ComputeLookaheads(F: array<set<int>>, lookback: array<seq<nat>>) returns (LA: array<set<int>>)
    requires LookbackInRange(lookback[..], F.Length)
    ensures LA.Length == lookback.Length
    ensures forall i: nat :: i < LA.Length ==> IsUnion(F[..], lookback[i], |lookback[i]|, LA[i])
  {
    LA := new set<int>[lookback.Length](_ => {});
    var i := 0;
    while i < lookback.Length
      invariant i <= lookback.Length
      invariant forall x: nat :: x < i ==> IsUnion(F[..], lookback[x], |lookback[x]|, LA[x])
      invariant forall x: nat :: i <= x < LA.Length ==> LA[x] == {}
    {
      assert lookback[..][i] == lookback[i];
      assert IsUnion(F[..], lookback[i], 0, LA[i]);
      hide IsUnion;
      var sp := 0;
      while sp < |lookback[i]|
        invariant sp <= |lookback[i]| && IsUnion(F[..], lookback[i], sp, LA[i])
        invariant forall x: nat :: x < i ==> IsUnion(F[..], lookback[x], |lookback[x]|, LA[x])
        invariant forall x: nat :: i < x < LA.Length ==> LA[x] == {}
      {
        UnionMore(F[..], lookback[i], sp, LA[i]);
        assert F[..][lookback[i][sp]] == F[lookback[i][sp]];
        LA[i] := LA[i] + F[lookback[i][sp]];
        sp := sp + 1;
      }
      i := i + 1;
    }
  }

  /** Every index belongs to some state. */
  lemma {:induction false} RowOf(A: Automaton, la: seq<nat>, rn: seq<int>, idx: nat, n: nat) returns (s: nat)
    requires LaIndex(A, la, rn) && n <= |A.reds| && idx < la[n]
    ensures s < n && InRow(la, s, idx)
    decreases n
  {
    if idx >= la[n - 1] { s := n - 1; } else { s := RowOf(A, la, rn, idx, n - 1); }
  }

  lemma LookedInRange(G: Grammar, A: Automaton, M: GotoMap, la: seq<nat>, rn: seq<int>, lb: seq<seq<nat>>, n: nat)
    requires LaIndex(A, la, rn) && Looked(G, A, M, la, rn, lb, n, []) && n == |M.from|
    ensures LookbackInRange(lb, |M.from|)
  {
    forall i: nat, k: nat | i < |lb| && k < |lb[i]| ensures lb[i][k] < |M.from| {
      var s := RowOf(A, la, rn, i, |A.reds|);
      assert LookedAt(G, A, M, s, rn[i], lb[i], n, []);
      hide Lookback;
      assert lb[i][k] in lb[i];
      assert LookedBack(G, A, M, s, rn[i], lb[i][k], n, []);
    }
  }

  /** The unions are the lookahead sets. */
  lemma UnionsAreLa(G: Grammar, A: Automaton, M: GotoMap, f: Sets, la: seq<nat>, rn: seq<int>, lb: seq<seq<nat>>, LA: Sets)
    requires IsLR0(G, A) && LaIndex(A, la, rn) && Looked(G, A, M, la, rn, lb, |M.from|, []) && |f| == |M.from|
    requires |LA| == |lb| && forall i: nat :: i < |LA| ==> IsUnion(f, lb[i], |lb[i]|, LA[i])
    ensures LaExact(G, A, M, f, la, rn, LA)
  {
    forall s: nat, idx: nat | InRow(la, s, idx) && idx < |rn| ensures LaSet(G, A, M, f, s, rn[idx], LA[idx]) {
      assert LookedAt(G, A, M, s, rn[idx], lb[idx], |M.from|, []);
      RowRule(A, la, rn, s, idx);
      RuleNumber(G, A, s, rn[idx]);
      hide IsLR0, LaIndex, Lookback, InRow;
      UnionIsLa(G, A, M, f, s, rn[idx], lb[idx], LA[idx]);
    }
  }

  lemma RuleNumber(G: Grammar, A: Automaton, s: nat, r: int)
    requires IsLR0(G, A) && s < |A.reds| && r in A.reds[s]
    ensures r > 0
  {
    var i := CompletedItem(G, A, s, r);
  }

  lemma UnionIsLa(G: Grammar, A: Automaton, M: GotoMap, f: Sets, s: nat, r: nat, row: seq<nat>, u: set<int>)
    requires LookedAt(G, A, M, s, r, row, |M.from|, []) && |f| == |M.from| && IsUnion(f, row, |row|, u)
    ensures LaSet(G, A, M, f, s, r, u)
  {
    hide Lookback;
    forall a ensures a in u <==> InLookahead(G, A, M, f, s, r, a) {
      assert a in u <==> InUnion(f, row, |row|, a);
      if InUnion(f, row, |row|, a) {
        var k: nat :| k < |row| && row[k] < |f| && a in f[row[k]];
        assert row[k] in row;
        assert LookedBack(G, A, M, s, r, row[k], |M.from|, []);
      }
      if InLookahead(G, A, M, f, s, r, a) {
        var i: nat :| i < |f| && Lookback(G, A, M, s, r, i) && a in f[i];
        assert LookedBack(G, A, M, s, r, i, |M.from|, []);
        var k: nat :| k < |row| && row[k] == i;
      }
    }
  }

  lemma FollowsDone(G: Grammar, A: Automaton, M: GotoMap, rd: Sets, includes: Rel, f: Sets)
    requires WellFormed(G) && ReadSets(G, A, M, rd) && IsIncludes(G, A, M, includes) && Closed(includes, rd, f)
    ensures FollowSets(G, A, M, f)
  {}

  lemma IncludesValid(G: Grammar, A: Automaton, M: GotoMap, includes: Rel)
    requires WellFormed(G) && IsIncludes(G, A, M, includes)
    ensures ValidRel(includes) && |includes| == |M.from|
  {}

  lemma NullableIntro(G: Grammar, nullable: seq<bool>)
    requires WellFormed(G) && |nullable| == G.nsyms && forall x: nat :: x < G.nsyms ==> (nullable[x] <==> DerivesEmpty(G, x))
    ensures IsNullable(G, nullable)
  {}

  /** lalr: the lookahead set of every reduction is exactly the union of the least Follow sets, over the least Read
      sets, of the gotos it can lead back to. */
  method ComputeLalr(G: Grammar, A: Automaton)
    returns (lookaheads: array<nat>, LAruleno: array<int>, LA: array<set<int>>, M: GotoMap, ghost f: Sets)
    requires IsLR0(G, A) && RedsOrdered(A)
    ensures GotosExact(G, A, M) && LaIndex(A, lookaheads[..], LAruleno[..])
    ensures WellFormed(G) && FollowSets(G, A, M, f) && LaExact(G, A, M, f, lookaheads[..], LAruleno[..], LA[..])
  {
    hide *;
    Sizes(G, A);
    var nullable := SetNullable(G);
    NullableIntro(G, nullable[..]);
    lookaheads, LAruleno := InitializeLA(A);
    var gotoMap, fromState, toState := SetGotoMap(G, A);
    M := GotoMap(gotoMap[..], fromState[..], toState[..]);
    var F := InitializeF(G, A, M, nullable);
    ghost var rd := F[..];
    var includes, lookback := BuildRelations(G, A, M, nullable, lookaheads, LAruleno);
    IncludesValid(G, A, M, includes);
    RunDigraph(includes, F);
    f := F[..];
    FollowsDone(G, A, M, rd, includes, f);
    LookedInRange(G, A, M, lookaheads[..], LAruleno[..], lookback[..], |M.from|);
    LookedSize(G, A, M, lookaheads[..], LAruleno[..], lookback[..], |M.from|, []);
    LA := ComputeLookaheads(F, lookback);
    UnionsAreLa(G, A, M, f, lookaheads[..], LAruleno[..], lookback[..], LA[..]);
  }
}
