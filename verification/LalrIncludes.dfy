/** The includes and lookback relations (lalr.c, build_relations, add_lookback_edge and transpose). */
module LalrIncludes {
  import opened Grammars
  import opened Relation
  import opened Automata
  import opened Closures
  import opened Lr0Spec
  import opened Gotos
  import opened LalrSpec
  import opened LalrFollow
  import opened LalrReads

  // ----- Reading a rule -----

  /** The inner loop of build_relations that looks for the shift on a symbol. */
  method FindShift(A: Automaton, state: nat, symbol: nat) returns (stateno: nat)
    requires HasTarget(A, state, symbol)
    ensures IsGoto(A, state, symbol, stateno)
  {
    ghost var t :| IsGoto(A, state, symbol, t);
    ghost var g: nat :| g < |A.shifts[state]| && A.shifts[state][g] == t;
    var sp := A.shifts[state];
    var j := 0;
    while true
      invariant j <= g
      decreases g - j
    {
      stateno := sp[j];
      if stateno < |A.acc| && A.acc[stateno] == symbol { break; }
      j := j + 1;
    }
    assert sp[j] in sp;
  }

  /** The states met when rule r is read from the start of goto i. */
  method WalkRule(G: Grammar, A: Automaton, M: GotoMap, i: nat, r: nat) returns (states: seq<nat>)
    requires IsLR0(G, A) && GotosExact(G, A, M) && Numbered(M, i) && G.IsRule(r) && G.rlhs[r] == SymbolOf(A, M, i)
    ensures RuleFrom(G, A, M, i, r, states) && |states| == |Body(G, r)| + 1
    ensures states[|states| - 1] < |A.reds| && r in A.reds[states[|states| - 1]] && r > 2
  {
    hide *;
    Sizes(G, A);
    NumberedSize(M, i);
    ghost var x := GotoOf(G, A, M, i);
    GotoBounds(A, M.from[i], x, M.to[i]);
    LeftSide(G, A, M.from[i], x, M.to[i], r);
    TrackStart(G, A, M.from[i], M.to[i], r);
    var stateno := M.from[i];
    states := [stateno];
    ghost var m: nat := 0;
    RuleAt(G, r, m);
    var rp := G.rrhs[r];
    while G.ritem[rp] >= 0
      invariant |states| == m + 1 && rp == G.rrhs[r] + m && rp < |G.ritem| && states[0] == M.from[i] && states[m] == stateno
      invariant OnTrack(G, A, states, r, m) && m <= |Body(G, r)| && (G.ritem[rp] >= 0 <==> m < |Body(G, r)|)
      decreases |Body(G, r)| - m
    {
      BodySymbol(G, r, m);
      ghost var t := TrackStep(G, A, states, r, m);
      TargetIntro(A, stateno, G.ritem[rp], t);
      stateno := FindShift(A, stateno, G.ritem[rp]);
      GotoUnique(G, A, states[m], G.ritem[rp], t, stateno);
      states := states + [stateno];
      rp := rp + 1;
      m := m + 1;
      RuleAt(G, r, m);
    }
    TrackEnd(G, A, states, r);
    RuleFromIntro(G, A, M, i, r, states);
    TrackTop(G, A, states, r, m);
  }

  lemma TrackTop(G: Grammar, A: Automaton, p: seq<nat>, r: nat, m: nat)
    requires KernelsOk(G, A) && OnTrack(G, A, p, r, m)
    ensures |p| == m + 1 && p[m] < |A.reds|
  {}

  lemma GotoBounds(A: Automaton, s: int, x: int, t: int)
    requires IsGoto(A, s, x, t)
    ensures 0 <= s < |A.shifts| && 0 <= t < |A.acc|
  {}

  lemma RuleAt(G: Grammar, r: nat, m: nat)
    requires WellFormed(G) && G.IsRule(r) && m <= |Body(G, r)|
    ensures r + 1 < |G.rrhs| && G.rrhs[r] + m < |G.ritem| && (G.ritem[G.rrhs[r] + m] >= 0 <==> m < |Body(G, r)|)
  {
    BodyLength(G, r);
    if m < |Body(G, r)| { BodySymbol(G, r, m); }
  }

  lemma RuleFromIntro(G: Grammar, A: Automaton, M: GotoMap, i: nat, r: nat, p: seq<nat>)
    requires Numbered(M, i) && G.IsRule(r) && G.rlhs[r] == SymbolOf(A, M, i) && Walk(A, p, Body(G, r)) && p[0] == M.from[i]
    ensures RuleFrom(G, A, M, i, r, p) && |p| == |Body(G, r)| + 1
  {}

  // ----- Includes -----

  /** Goto k includes goto i by rule r. */
  ghost predicate IncludesBy(G: Grammar, A: Automaton, M: GotoMap, k: nat, i: nat, r: nat)
    requires WellFormed(G)
  {
    exists m: nat, p :: IncludesVia(G, A, M, k, i, r, m, p)
  }

  /** The same by a symbol at position m or later. */
  ghost predicate IncludesFrom(G: Grammar, A: Automaton, M: GotoMap, k: nat, i: nat, r: nat, p: seq<nat>, lo: nat)
    requires WellFormed(G)
  {
    exists m: nat :: lo <= m && IncludesVia(G, A, M, k, i, r, m, p)
  }

  lemma IncludesAll(G: Grammar, A: Automaton, M: GotoMap, k: nat, i: nat, r: nat, p: seq<nat>)
    requires IsLR0(G, A) && RuleFrom(G, A, M, i, r, p)
    ensures IncludesFrom(G, A, M, k, i, r, p, 0) <==> IncludesBy(G, A, M, k, i, r)
  {
    assert WellFormed(G);
    hide IsLR0, WellFormed, RestVanishes, Walk;
    if IncludesBy(G, A, M, k, i, r) {
      var m: nat, q :| IncludesVia(G, A, M, k, i, r, m, q);
      WalkUnique(G, A, p, q, Body(G, r));
      assert 0 <= m && IncludesVia(G, A, M, k, i, r, m, p);
    }
  }

  lemma TokenNotNullable(G: Grammar, x: int)
    requires WellFormed(G) && x < G.ntokens
    ensures !NullableSymbol(G, x)
  {
    if NullableSymbol(G, x) {
      var t :| TreeOk(G, t) && Root(G, t) == x && Yield(t) == [];
      TokenYields(G, t);
    }
  }

  /** Position m - 1 is reached backwards: its goto is added when it is on a nonterminal. */
  lemma IncludesStep(G: Grammar, A: Automaton, M: GotoMap, i: nat, r: nat, p: seq<nat>, m: nat, g: nat, k: nat)
    requires GotosExact(G, A, M) && RuleFrom(G, A, M, i, r, p) && m < |Body(G, r)| && RestVanishes(G, r, m + 1)
    requires IsNonterminal(G, Body(G, r)[m]) && InSegment(G, M, Body(G, r)[m], g) && M.from[g] == p[m]
    ensures IncludesFrom(G, A, M, k, i, r, p, m) <==> IncludesFrom(G, A, M, k, i, r, p, m + 1) || k == g
  {
    assert IsGoto(A, M.from[g], Body(G, r)[m], M.to[g]);
    assert IsGoto(A, p[m], Body(G, r)[m], p[m + 1]);
    GotoIsTarget(G, A, M, p[m], Body(G, r)[m], p[m + 1], g);
    hide GotosExact, WellFormed, Walk, RestVanishes, IsGoto;
    if k == g { assert m <= m && IncludesVia(G, A, M, g, i, r, m, p); }
    if IncludesFrom(G, A, M, k, i, r, p, m) {
      var m': nat :| m <= m' && IncludesVia(G, A, M, k, i, r, m', p);
      if m' == m { SameGoto(G, A, M, k, g, Body(G, r)[m]); }
    }
  }

  /** The numbered goto from a state on a symbol ends where the automaton goes. */
  lemma GotoIsTarget(G: Grammar, A: Automaton, M: GotoMap, s: nat, x: nat, t: nat, g: nat)
    requires GotosExact(G, A, M) && IsNonterminal(G, x) && IsGoto(A, s, x, t) && InSegment(G, M, x, g) && M.from[g] == s
    ensures Numbered(M, g) && M.to[g] == t && SymbolOf(A, M, g) == x
  {
    assert Listed(G, M, s, x, t);
    var k: nat :| InSegment(G, M, x, k) && M.from[k] == s && M.to[k] == t;
    OneSource(G, A, M, x, k, g);
  }

  lemma OneSource(G: Grammar, A: Automaton, M: GotoMap, x: nat, k: nat, g: nat)
    requires GotosExact(G, A, M) && IsNonterminal(G, x) && InSegment(G, M, x, k) && InSegment(G, M, x, g) && M.from[k] == M.from[g]
    ensures k == g
  {}

  lemma SameGoto(G: Grammar, A: Automaton, M: GotoMap, k: nat, g: nat, x: nat)
    requires GotosExact(G, A, M) && Numbered(M, k) && Numbered(M, g) && M.from[k] == M.from[g] && M.to[k] == M.to[g]
    ensures k == g
  {
    NumberUnique(G, A, M, k, g);
  }

  /** Before a symbol that does not vanish nothing more is included. */
  lemma IncludesStop(G: Grammar, A: Automaton, M: GotoMap, k: nat, i: nat, r: nat, p: seq<nat>, m: nat)
    requires WellFormed(G) && m < |Body(G, r)| && !NullableSymbol(G, Body(G, r)[m])
    ensures IncludesFrom(G, A, M, k, i, r, p, 0) <==> IncludesFrom(G, A, M, k, i, r, p, m)
  {
    hide NullableSymbol, RuleFrom, WellFormed, IsNonterminal;
    if IncludesFrom(G, A, M, k, i, r, p, 0) {
      var m': nat :| 0 <= m' && IncludesVia(G, A, M, k, i, r, m', p);
      assert m <= m';
      assert IncludesFrom(G, A, M, k, i, r, p, m);
    }
    if IncludesFrom(G, A, M, k, i, r, p, m) {
      var m': nat :| m <= m' && IncludesVia(G, A, M, k, i, r, m', p);
      assert 0 <= m';
    }
  }

  lemma IncludesEnd(G: Grammar, A: Automaton, M: GotoMap, k: nat, i: nat, r: nat, p: seq<nat>, m: nat)
    requires WellFormed(G) && m >= |Body(G, r)|
    ensures !IncludesFrom(G, A, M, k, i, r, p, m)
  {}

  lemma VanishMore(G: Grammar, r: nat, m: nat)
    requires WellFormed(G) && RestVanishes(G, r, m + 1) && (m < |Body(G, r)| ==> NullableSymbol(G, Body(G, r)[m]))
    ensures RestVanishes(G, r, m)
  {
    hide NullableSymbol;
  }

  lemma VanishEnd(G: Grammar, r: nat, m: nat)
    requires WellFormed(G) && m >= |Body(G, r)|
    ensures RestVanishes(G, r, m)
  {}

  /** Before its right-hand side stands the end of the rule before. */
  lemma BeforeRule(G: Grammar, r: nat)
    requires WellFormed(G) && G.IsRule(r) && r > 2
    ensures G.rrhs[r] > 0 && G.ritem[G.rrhs[r] - 1] < 0
  {
    RuleBounds(G, r - 1);
    EndOfRule(G, G.rrhs[r] - 1, r - 1);
  }

  ghost predicate Collected(G: Grammar, A: Automaton, M: GotoMap, i: nat, r: nat, p: seq<nat>, lo: nat, edge: seq<nat>)
    requires WellFormed(G)
  {
    forall k: nat :: k in edge <==> IncludesFrom(G, A, M, k, i, r, p, lo)
  }

  /** The loop of build_relations that goes back through a rule while its symbols vanish. */
  method BackEdges(G: Grammar, A: Automaton, M: GotoMap, nullable: array<bool>, i: nat, r: nat, states: seq<nat>) returns (edge: seq<nat>)
    requires IsLR0(G, A) && GotosExact(G, A, M) && IsNullable(G, nullable[..]) && r > 2
    requires RuleFrom(G, A, M, i, r, states) && |states| == |Body(G, r)| + 1
    ensures WellFormed(G) && Collected(G, A, M, i, r, states, 0, edge)
  {
    hide *;
    Sizes(G, A);
    FromRule(G, A, M, i, r, states);
    BeforeRule(G, r);
    BodyLength(G, r);
    edge := [];
    var length: nat := |states| - 1;
    var rp: nat := G.rrhs[r] + length;
    CollectedEnd(G, A, M, i, r, states, length);
    VanishEnd(G, r, length);
    var done := false;
    while !done
      invariant length <= |Body(G, r)|
      invariant !done ==> rp == G.rrhs[r] + length && rp < |G.ritem| && RestVanishes(G, r, length) && Collected(G, A, M, i, r, states, length, edge)
      invariant done ==> Collected(G, A, M, i, r, states, 0, edge)
      decreases !done, length
    {
      done := true;
      rp := rp - 1;
      if length == 0 {
        NotVariable(G, G.ritem[rp]);
      } else {
        BodySymbol(G, r, length - 1);
      }
      if G.ritem[rp] >= G.ntokens {
        edge, length, done := BackStep(G, A, M, nullable, i, r, states, length, edge);
      } else if length > 0 {
        TokenStops(G, A, M, i, r, states, length - 1, edge);
      }
    }
  }

  lemma NotVariable(G: Grammar, x: int)
    requires x < 0
    ensures x < G.ntokens
  {}

  /** One nonterminal of the way back. */
  method BackStep(G: Grammar, A: Automaton, M: GotoMap, nullable: array<bool>, i: nat, r: nat, states: seq<nat>, length0: nat, edge0: seq<nat>)
    returns (edge: seq<nat>, length: nat, done: bool)
    requires IsLR0(G, A) && GotosExact(G, A, M) && IsNullable(G, nullable[..])
    requires RuleFrom(G, A, M, i, r, states) && |states| == |Body(G, r)| + 1 && 0 < length0 <= |Body(G, r)|
    requires G.ntokens <= Body(G, r)[length0 - 1] < G.nsyms
    requires RestVanishes(G, r, length0) && Collected(G, A, M, i, r, states, length0, edge0)
    ensures length == length0 - 1
    ensures !done ==> length > 0 && RestVanishes(G, r, length) && Collected(G, A, M, i, r, states, length, edge)
    ensures done ==> Collected(G, A, M, i, r, states, 0, edge)
  {
    hide *;
    Sizes(G, A);
    length := length0 - 1;
    var symbol := Body(G, r)[length];
    NullableMeans(G, nullable[..], symbol);
    WalkGoto(G, A, M, i, r, states, length);
    NonterminalIntro(G, symbol);
    var k := MapGoto(G, A, M, states[length], symbol);
    edge := edge0 + [k];
    CollectOne(G, A, M, i, r, states, length, k, edge0);
    done := true;
    if nullable[symbol] {
      VanishMore(G, r, length);
      if length > 0 { done := false; }
    } else {
      CollectStop(G, A, M, i, r, states, length, edge);
    }
  }

  lemma WalkGoto(G: Grammar, A: Automaton, M: GotoMap, i: nat, r: nat, p: seq<nat>, m: nat)
    requires RuleFrom(G, A, M, i, r, p) && m < |Body(G, r)| && |p| == |Body(G, r)| + 1 && Body(G, r)[m] >= 0
    ensures HasTarget(A, p[m], Body(G, r)[m])
  {
    assert IsGoto(A, p[m], Body(G, r)[m], p[m + 1]);
  }

  lemma CollectOne(G: Grammar, A: Automaton, M: GotoMap, i: nat, r: nat, p: seq<nat>, m: nat, g: nat, edge: seq<nat>)
    requires GotosExact(G, A, M) && RuleFrom(G, A, M, i, r, p) && m < |Body(G, r)| && RestVanishes(G, r, m + 1)
    requires IsNonterminal(G, Body(G, r)[m]) && InSegment(G, M, Body(G, r)[m], g) && M.from[g] == p[m]
    requires Collected(G, A, M, i, r, p, m + 1, edge)
    ensures Collected(G, A, M, i, r, p, m, edge + [g])
  {
    assert WellFormed(G);
    hide GotosExact, WellFormed, RuleFrom, RestVanishes, InSegment, IncludesFrom;
    forall k: nat ensures k in edge + [g] <==> IncludesFrom(G, A, M, k, i, r, p, m) {
      IncludesStep(G, A, M, i, r, p, m, g, k);
    }
  }

  lemma CollectStop(G: Grammar, A: Automaton, M: GotoMap, i: nat, r: nat, p: seq<nat>, m: nat, edge: seq<nat>)
    requires WellFormed(G) && m < |Body(G, r)| && !NullableSymbol(G, Body(G, r)[m]) && Collected(G, A, M, i, r, p, m, edge)
    ensures Collected(G, A, M, i, r, p, 0, edge)
  {
    hide WellFormed, NullableSymbol, IncludesFrom;
    forall k: nat ensures k in edge <==> IncludesFrom(G, A, M, k, i, r, p, 0) {
      IncludesStop(G, A, M, k, i, r, p, m);
    }
  }

  /** A token ends the way back. */
  lemma TokenStops(G: Grammar, A: Automaton, M: GotoMap, i: nat, r: nat, p: seq<nat>, m: nat, edge: seq<nat>)
    requires WellFormed(G) && m < |Body(G, r)| && Body(G, r)[m] < G.ntokens && Collected(G, A, M, i, r, p, m + 1, edge)
    ensures Collected(G, A, M, i, r, p, 0, edge)
  {
    TokenNotNullable(G, Body(G, r)[m]);
    hide WellFormed, NullableSymbol, RuleFrom, RestVanishes;
    forall k: nat ensures IncludesFrom(G, A, M, k, i, r, p, m) <==> IncludesFrom(G, A, M, k, i, r, p, m + 1) {
      if IncludesFrom(G, A, M, k, i, r, p, m) {
        var m': nat :| m <= m' && IncludesVia(G, A, M, k, i, r, m', p);
        assert m + 1 <= m';
      }
    }
    CollectStop(G, A, M, i, r, p, m, edge);
  }

  lemma FromRule(G: Grammar, A: Automaton, M: GotoMap, i: nat, r: nat, p: seq<nat>)
    requires RuleFrom(G, A, M, i, r, p)
    ensures G.IsRule(r) && Walk(A, p, Body(G, r)) && p[0] == M.from[i]
  {}

  lemma CollectedEnd(G: Grammar, A: Automaton, M: GotoMap, i: nat, r: nat, p: seq<nat>, m: nat)
    requires WellFormed(G) && m >= |Body(G, r)|
    ensures Collected(G, A, M, i, r, p, m, [])
  {
    forall k: nat ensures !IncludesFrom(G, A, M, k, i, r, p, m) { IncludesEnd(G, A, M, k, i, r, p, m); }
  }

  // ----- Lookback -----

  /** Lookback edges recorded so far: all those of the gotos before i, and for i those of the rules done. */
  ghost predicate LookedBack(G: Grammar, A: Automaton, M: GotoMap, s: nat, r: int, g: nat, i: nat, done: seq<nat>) {
    r >= 0 && Lookback(G, A, M, s, r, g) && (g < i || (g == i && r in done))
  }

  ghost predicate Looked(G: Grammar, A: Automaton, M: GotoMap, la: seq<nat>, rn: seq<int>, lb: seq<seq<nat>>, i: nat, done: seq<nat>) {
    |lb| == |rn| && forall s: nat, idx: nat :: InRow(la, s, idx) && idx < |rn| ==> LookedAt(G, A, M, s, rn[idx], lb[idx], i, done)
  }

  ghost predicate LookedAt(G: Grammar, A: Automaton, M: GotoMap, s: nat, r: int, row: seq<nat>, i: nat, done: seq<nat>) {
    forall g: nat :: g in row <==> LookedBack(G, A, M, s, r, g, i, done)
  }

  /** One more edge: rule r of goto i ends in state q. */
  lemma LookOne(G: Grammar, A: Automaton, M: GotoMap, la: seq<nat>, rn: seq<int>, lb: seq<seq<nat>>, i: nat, done: seq<nat>, r: nat, p: seq<nat>, q: nat, idx: nat)
    requires IsLR0(G, A) && RedsOrdered(A) && LaIndex(A, la, rn) && Looked(G, A, M, la, rn, lb, i, done)
    requires RuleFrom(G, A, M, i, r, p) && p[|Body(G, r)|] == q && InRow(la, q, idx) && idx < |rn| && rn[idx] == r
    requires forall j: nat :: InRow(la, q, j) && j < |rn| && rn[j] == r ==> j == idx
    ensures Looked(G, A, M, la, rn, lb[idx := [i] + lb[idx]], i, done + [r])
  {
    var lb' := lb[idx := [i] + lb[idx]];
    forall s: nat, j: nat | InRow(la, s, j) && j < |rn| ensures LookedAt(G, A, M, s, rn[j], lb'[j], i, done + [r]) {
      assert LookedAt(G, A, M, s, rn[j], lb[j], i, done);
      hide IsLR0, LaIndex, RedsOrdered, Lookback, InRow, LookedAt;
      if rn[j] == r {
        OnlyState(G, A, M, s, q, r, i, p);
        if j == idx { RowUnique(A, la, rn, s, q, idx); }
      }
      LookRow(G, A, M, s, rn[j], lb[j], i, done, r, j == idx, lb'[j]);
    }
  }

  /** A rule read from a goto ends in one state. */
  lemma OnlyState(G: Grammar, A: Automaton, M: GotoMap, s: nat, q: nat, r: nat, i: nat, p: seq<nat>)
    requires IsLR0(G, A) && RuleFrom(G, A, M, i, r, p) && p[|Body(G, r)|] == q
    ensures Lookback(G, A, M, s, r, i) <==> s == q
  {
    hide IsLR0, IsGoto;
    if Lookback(G, A, M, s, r, i) {
      var p' :| RuleFrom(G, A, M, i, r, p') && p'[|Body(G, r)|] == s;
      WalkUnique(G, A, p, p', Body(G, r));
    }
  }

  lemma LookRow(G: Grammar, A: Automaton, M: GotoMap, s: nat, r': int, row: seq<nat>, i: nat, done: seq<nat>, r: nat, here: bool, row': seq<nat>)
    requires LookedAt(G, A, M, s, r', row, i, done) && row' == (if here then [i] + row else row)
    requires here <==> r' == r && Lookback(G, A, M, s, r, i)
    ensures LookedAt(G, A, M, s, r', row', i, done + [r])
  {
    hide Lookback;
    forall g: nat ensures g in row' <==> LookedBack(G, A, M, s, r', g, i, done + [r]) {
      assert g in row <==> LookedBack(G, A, M, s, r', g, i, done);
      assert r' >= 0 ==> (r' in done + [r] <==> r' in done || r' == r);
    }
  }

  /** All rules of the symbol of goto i are done. */
  lemma LookNext(G: Grammar, A: Automaton, M: GotoMap, la: seq<nat>, rn: seq<int>, lb: seq<seq<nat>>, i: nat, done: seq<nat>)
    requires Looked(G, A, M, la, rn, lb, i, done)
    requires forall r: nat :: G.IsRule(r) && G.rlhs[r] == SymbolOf(A, M, i) ==> r in done
    ensures Looked(G, A, M, la, rn, lb, i + 1, [])
  {
    forall s: nat, idx: nat | InRow(la, s, idx) && idx < |rn| ensures LookedAt(G, A, M, s, rn[idx], lb[idx], i + 1, []) {
      assert LookedAt(G, A, M, s, rn[idx], lb[idx], i, done);
      hide InRow, Walk;
      forall g: nat ensures g in lb[idx] <==> LookedBack(G, A, M, s, rn[idx], g, i + 1, []) {
        assert g in lb[idx] <==> LookedBack(G, A, M, s, rn[idx], g, i, done);
      }
    }
  }

  lemma LookNone(G: Grammar, A: Automaton, M: GotoMap, la: seq<nat>, rn: seq<int>, lb: seq<seq<nat>>)
    requires |lb| == |rn| && forall j :: 0 <= j < |lb| ==> lb[j] == []
    ensures Looked(G, A, M, la, rn, lb, 0, [])
  {}

  /** add_lookback_edge: a linear search for the rule among the reductions of the state. */
  method AddLookbackEdge(G: Grammar, A: Automaton, M: GotoMap, lookaheads: array<nat>, LAruleno: array<int>, lookback: array<seq<nat>>, stateno: nat, ruleno: nat, gotono: nat,
      ghost states: seq<nat>, ghost done: seq<nat>)
    requires IsLR0(G, A) && RedsOrdered(A) && LaIndex(A, lookaheads[..], LAruleno[..])
    requires (lookback as object) != lookaheads && (lookback as object) != LAruleno
    requires RuleFrom(G, A, M, gotono, ruleno, states) && |states| == |Body(G, ruleno)| + 1 && states[|states| - 1] == stateno
    requires stateno < |A.reds| && ruleno in A.reds[stateno]
    requires Looked(G, A, M, lookaheads[..], LAruleno[..], lookback[..], gotono, done)
    modifies lookback
    ensures Looked(G, A, M, lookaheads[..], LAruleno[..], lookback[..], gotono, done + [ruleno])
  {
    hide *;
    ghost var la, rn, lb := lookaheads[..], LAruleno[..], lookback[..];
    ghost var idx := RuleIndex(A, la, rn, stateno, ruleno);
    InRowMeans(la, stateno, idx);
    LookedSize(G, A, M, la, rn, lb, gotono, done);
    var i, k := lookaheads[stateno], lookaheads[stateno + 1];
    var found := false;
    while !found && i < k
      invariant la[stateno] <= i <= idx && (found ==> i == idx)
      decreases k - i, !found
      modifies {}
    {
      RowIntro(la, stateno, i);
      if LAruleno[i] == ruleno { found := true; } else { i := i + 1; }
    }
    lookback[i] := [gotono] + lookback[i];
    assert lookback[..] == lb[idx := [gotono] + lb[idx]];
    LookOne(G, A, M, la, rn, lb, gotono, done, ruleno, states, stateno, idx);
  }

  lemma InRowMeans(la: seq<nat>, s: nat, idx: nat)
    requires InRow(la, s, idx)
    ensures s + 1 < |la| && la[s] <= idx < la[s + 1]
  {}

  lemma LookedSize(G: Grammar, A: Automaton, M: GotoMap, la: seq<nat>, rn: seq<int>, lb: seq<seq<nat>>, i: nat, done: seq<nat>)
    requires Looked(G, A, M, la, rn, lb, i, done)
    ensures |lb| == |rn|
  {}

  // ----- One goto -----

  /** The edges found by the first n rules of goto i. */
  ghost predicate EdgesSoFar(G: Grammar, A: Automaton, M: GotoMap, i: nat, rules: seq<nat>, n: nat, edge: seq<nat>)
    requires WellFormed(G)
  {
    n <= |rules| && forall k: nat :: k in edge <==> EdgeOfRules(G, A, M, i, rules, n, k)
  }

  ghost predicate EdgeOfRules(G: Grammar, A: Automaton, M: GotoMap, i: nat, rules: seq<nat>, n: nat, k: nat)
    requires WellFormed(G) && n <= |rules|
  {
    exists q: nat :: q < n && IncludesBy(G, A, M, k, i, rules[q])
  }

  lemma MoreRules(G: Grammar, A: Automaton, M: GotoMap, i: nat, rules: seq<nat>, n: nat, edge: seq<nat>, p: seq<nat>, more: seq<nat>)
    requires IsLR0(G, A) && EdgesSoFar(G, A, M, i, rules, n, edge) && n < |rules|
    requires RuleFrom(G, A, M, i, rules[n], p) && Collected(G, A, M, i, rules[n], p, 0, more)
    ensures EdgesSoFar(G, A, M, i, rules, n + 1, edge + more)
  {
    assert WellFormed(G);
    hide IsLR0, WellFormed, IncludesBy, IncludesFrom, RuleFrom;
    forall k: nat ensures k in edge + more <==> EdgeOfRules(G, A, M, i, rules, n + 1, k) {
      IncludesAll(G, A, M, k, i, rules[n], p);
      assert k in edge <==> EdgeOfRules(G, A, M, i, rules, n, k);
      assert k in more <==> IncludesBy(G, A, M, k, i, rules[n]);
    }
  }

  /** Before the relation is transposed, row i lists the gotos that include goto i. */
  ghost predicate IncludedRow(G: Grammar, A: Automaton, M: GotoMap, i: nat, edge: seq<nat>)
    requires WellFormed(G)
  {
    forall k: nat :: k in edge <==> IncludesEdge(G, A, M, k, i)
  }

  lemma AllRules(G: Grammar, A: Automaton, M: GotoMap, i: nat, rules: seq<nat>, edge: seq<nat>)
    requires WellFormed(G) && EdgesSoFar(G, A, M, i, rules, |rules|, edge)
    requires forall r: nat :: G.IsRule(r) && G.rlhs[r] == SymbolOf(A, M, i) ==> r in rules
    ensures IncludedRow(G, A, M, i, edge)
  {
    hide WellFormed, RestVanishes, Walk;
    forall k: nat ensures k in edge <==> IncludesEdge(G, A, M, k, i) {
      assert k in edge <==> EdgeOfRules(G, A, M, i, rules, |rules|, k);
      if r: nat, m: nat, p :| IncludesVia(G, A, M, k, i, r, m, p) {
        var q: nat :| q < |rules| && rules[q] == r;
        assert IncludesBy(G, A, M, k, i, rules[q]);
      }
    }
  }

  lemma NoRules(G: Grammar, A: Automaton, M: GotoMap, i: nat, rules: seq<nat>)
    requires WellFormed(G)
    ensures EdgesSoFar(G, A, M, i, rules, 0, [])
  {}

  lemma RulesOfSymbol(G: Grammar, A: Automaton, M: GotoMap, i: nat) returns (x: nat)
    requires IsLR0(G, A) && GotosExact(G, A, M) && Numbered(M, i)
    ensures x == SymbolOf(A, M, i) && M.to[i] < |A.acc| && x == A.acc[M.to[i]]
    ensures forall r: nat :: r in Derives(G, x, |G.rlhs|) <==> G.IsRule(r) && G.rlhs[r] == x
  {
    x := GotoOf(G, A, M, i);
    forall r: nat ensures r in Derives(G, x, |G.rlhs|) <==> G.IsRule(r) && G.rlhs[r] == x {
      DerivesAll(G, x - G.ntokens, r);
    }
  }

  /** The body of the outer loop of build_relations. */
  method RelationsOf(G: Grammar, A: Automaton, M: GotoMap, nullable: array<bool>, lookaheads: array<nat>, LAruleno: array<int>, lookback: array<seq<nat>>, i: nat)
    returns (edge: seq<nat>)
    requires IsLR0(G, A) && GotosExact(G, A, M) && IsNullable(G, nullable[..]) && RedsOrdered(A) && Numbered(M, i)
    requires LaIndex(A, lookaheads[..], LAruleno[..]) && (lookback as object) != lookaheads && (lookback as object) != LAruleno && (lookback as object) != nullable
    requires Looked(G, A, M, lookaheads[..], LAruleno[..], lookback[..], i, [])
    modifies lookback
    ensures Looked(G, A, M, lookaheads[..], LAruleno[..], lookback[..], i + 1, []) && WellFormed(G) && IncludedRow(G, A, M, i, edge)
  {
    hide *;
    Sizes(G, A);
    NumberedSize(M, i);
    ghost var x := RulesOfSymbol(G, A, M, i);
    var symbol1 := A.acc[M.to[i]];
    var rules := Derives(G, symbol1, |G.rlhs|);
    edge := [];
    NoRules(G, A, M, i, rules);
    var rulep: nat := 0;
    assert rules[..0] == [];
    while rulep < |rules|
      invariant rulep <= |rules| && EdgesSoFar(G, A, M, i, rules, rulep, edge)
      invariant Looked(G, A, M, lookaheads[..], LAruleno[..], lookback[..], i, rules[..rulep])
    {
      var r := rules[rulep];
      assert r in rules;
      var states := WalkRule(G, A, M, i, r);
      AddLookbackEdge(G, A, M, lookaheads, LAruleno, lookback, states[|states| - 1], r, i, states, rules[..rulep]);
      var more := BackEdges(G, A, M, nullable, i, r, states);
      MoreRules(G, A, M, i, rules, rulep, edge, states, more);
      edge := edge + more;
      assert rules[..rulep + 1] == rules[..rulep] + [r];
      rulep := rulep + 1;
    }
    assert rules[..rulep] == rules;
    AllRules(G, A, M, i, rules, edge);
    LookNext(G, A, M, lookaheads[..], LAruleno[..], lookback[..], i, rules);
  }

  // ----- Transposition -----

  /** The rows of R that mention j, in order, as often as they do. */
  function Into(R: Rel, j: nat, i: nat): seq<nat>
    requires i <= |R|
  {
    if i == 0 then [] else Into(R, j, i - 1) + Copies(R[i - 1], j, i - 1, |R[i - 1]|)
  }

  function Copies(row: seq<nat>, j: nat, i: nat, k: nat): seq<nat>
    requires k <= |row|
  {
    if k == 0 then [] else Copies(row, j, i, k - 1) + (if row[k - 1] == j then [i] else [])
  }

  lemma {:induction false} CopiesHas(row: seq<nat>, j: nat, i: nat, k: nat, x: nat)
    requires k <= |row|
    ensures x in Copies(row, j, i, k) <==> x == i && j in row[..k]
    decreases k
  {
    if k > 0 {
      CopiesHas(row, j, i, k - 1, x);
      assert row[..k] == row[..k - 1] + [row[k - 1]];
    }
  }

  lemma {:induction false} IntoHas(R: Rel, j: nat, i: nat, x: nat)
    requires i <= |R|
    ensures x in Into(R, j, i) <==> x < i && j in R[x]
    decreases i
  {
    if i > 0 {
      hide Copies;
      IntoHas(R, j, i - 1, x);
      CopiesHas(R[i - 1], j, i - 1, |R[i - 1]|, x);
      assert R[i - 1][..|R[i - 1]|] == R[i - 1];
    }
  }

  /** What has been put into the row of j after k entries of row i. */
  function Upto(R: Rel, j: nat, i: nat, k: nat): seq<nat>
    requires i < |R| && k <= |R[i]|
  {
    Into(R, j, i) + Copies(R[i], j, i, k)
  }

  lemma UptoStep(R: Rel, j: nat, i: nat, k: nat)
    requires i < |R| && k < |R[i]|
    ensures Upto(R, j, i, k + 1) == if j == R[i][k] then Upto(R, j, i, k) + [i] else Upto(R, j, i, k)
  {}

  lemma UptoEnds(R: Rel, j: nat, i: nat)
    requires i < |R|
    ensures Upto(R, j, i, 0) == Into(R, j, i) && Upto(R, j, i, |R[i]|) == Into(R, j, i + 1)
  {}

  /** transpose: the rows are allocated by a count of their entries, and then filled to that length. */
  method Transpose(R: Rel) returns (newR: seq<seq<nat>>)
    requires ValidRel(R)
    ensures |newR| == |R| && ValidRel(newR) && forall y: nat, x: nat :: Edge(newR, y, x) <==> Edge(R, x, y)
  {
    var nedges := CountEdges(R);
    var rows := FillRows(R);
    assert forall j: nat :: j < |R| ==> |rows[j]| == nedges[j];
    newR := rows[..];
    Transposed(R, newR);
  }

  /** The last loop of transpose. */
  method FillRows(R: Rel) returns (rows: array<seq<nat>>)
    requires ValidRel(R)
    ensures rows.Length == |R| && forall j: nat :: j < |R| ==> rows[j] == Into(R, j, |R|)
  {
    hide Into, Upto;
    var n := |R|;
    rows := new seq<nat>[n](_ => []);
    forall j: nat ensures Into(R, j, 0) == [] { NoRow(R, j); }
    var i: nat := 0;
    while i < n
      invariant i <= n && forall j: nat :: j < n ==> rows[j] == Into(R, j, i)
    {
      forall j: nat ensures Upto(R, j, i, 0) == Into(R, j, i) { UptoEnds(R, j, i); }
      var k: nat := 0;
      while k < |R[i]|
        invariant k <= |R[i]| && forall j: nat :: j < n ==> rows[j] == Upto(R, j, i, k)
      {
        var sp := R[i][k];
        var k' := k + 1;
        forall j: nat ensures Upto(R, j, i, k') == if j == R[i][k] then Upto(R, j, i, k) + [i] else Upto(R, j, i, k) {
          UptoStep(R, j, i, k);
        }
        rows[sp] := rows[sp] + [i];
        k := k';
      }
      var i' := i + 1;
      forall j: nat ensures Upto(R, j, i, |R[i]|) == Into(R, j, i') { UptoEnds(R, j, i); }
      i := i';
    }
  }

  lemma NoRow(R: Rel, j: nat)
    ensures Into(R, j, 0) == []
  {}

  /** The first loop of transpose. */
  method CountEdges(R: Rel) returns (nedges: array<nat>)
    requires ValidRel(R)
    ensures fresh(nedges) && nedges.Length == |R| && forall j: nat :: j < |R| ==> nedges[j] == |Into(R, j, |R|)|
  {
    var n := |R|;
    nedges := new nat[n](_ => 0);
    var i := 0;
    while i < n
      invariant i <= n && forall j: nat :: j < n ==> nedges[j] == |Into(R, j, i)|
    {
      var k := 0;
      while k < |R[i]|
        invariant k <= |R[i]| && forall j: nat :: j < n ==> nedges[j] == |Upto(R, j, i, k)|
      {
        nedges[R[i][k]] := nedges[R[i][k]] + 1;
        k := k + 1;
      }
      i := i + 1;
    }
  }

  lemma Transposed(R: Rel, T: Rel)
    requires |T| == |R| && ValidRel(R) && forall j: nat :: j < |R| ==> T[j] == Into(R, j, |R|)
    ensures ValidRel(T) && forall y: nat, x: nat :: Edge(T, y, x) <==> Edge(R, x, y)
  {
    forall y: nat, x: nat ensures Edge(T, y, x) <==> Edge(R, x, y) {
      if y < |R| { IntoHas(R, y, |R|, x); }
      if Edge(R, x, y) {
        var k :| 0 <= k < |R[x]| && R[x][k] == y;
      }
    }
    forall y: nat, k: nat | y < |T| && k < |T[y]| ensures T[y][k] < |T| {
      IntoHas(R, y, |R|, T[y][k]);
    }
  }

  // ----- All gotos -----

  ghost predicate IncludedRows(G: Grammar, A: Automaton, M: GotoMap, R: Rel, n: nat)
    requires WellFormed(G)
  {
    n <= |R| == Count(M) && forall i: nat :: i < n ==> IncludedRow(G, A, M, i, R[i])
  }

  lemma RowsTransposed(G: Grammar, A: Automaton, M: GotoMap, R: Rel, T: Rel)
    requires WellFormed(G) && IncludedRows(G, A, M, R, |R|) && ValidRel(T) && |T| == |R|
    requires forall y: nat, x: nat :: Edge(T, y, x) <==> Edge(R, x, y)
    ensures IsIncludes(G, A, M, T)
  {
    hide WellFormed, RestVanishes, Walk;
    forall k: nat, i: nat ensures Edge(T, k, i) <==> IncludesEdge(G, A, M, k, i) {
      if i < |R| {
        assert IncludedRow(G, A, M, i, R[i]);
      } else {
        NoSource(G, A, M, k, i);
      }
    }
  }

  lemma NoSource(G: Grammar, A: Automaton, M: GotoMap, k: nat, i: nat)
    requires WellFormed(G) && i >= Count(M)
    ensures !IncludesEdge(G, A, M, k, i)
  {}

  lemma RowsValid(G: Grammar, A: Automaton, M: GotoMap, R: Rel)
    requires WellFormed(G) && IncludedRows(G, A, M, R, |R|)
    ensures ValidRel(R)
  {
    hide WellFormed, RestVanishes, RuleFrom;
    forall i: nat, k: nat | i < |R| && k < |R[i]| ensures R[i][k] < |R| {
      assert IncludedRow(G, A, M, i, R[i]);
      assert R[i][k] in R[i];
      assert IncludesEdge(G, A, M, R[i][k], i);
    }
  }

  lemma MoreIncluded(G: Grammar, A: Automaton, M: GotoMap, R: Rel, n: nat, edge: seq<nat>)
    requires WellFormed(G) && IncludedRows(G, A, M, R, n) && n < |R| && IncludedRow(G, A, M, n, edge)
    ensures IncludedRows(G, A, M, R[n := edge], n + 1)
  {
    hide WellFormed, IncludedRow;
  }

  lemma NoIncluded(G: Grammar, A: Automaton, M: GotoMap, R: Rel)
    requires WellFormed(G) && |R| == |M.from|
    ensures IncludedRows(G, A, M, R, 0) && Count(M) == |M.from|
  {}

  /** build_relations */
  method BuildRelations(G: Grammar, A: Automaton, M: GotoMap, nullable: array<bool>, lookaheads: array<nat>, LAruleno: array<int>)
    returns (includes: seq<seq<nat>>, lookback: array<seq<nat>>)
    requires IsLR0(G, A) && GotosExact(G, A, M) && IsNullable(G, nullable[..]) && RedsOrdered(A)
    requires LaIndex(A, lookaheads[..], LAruleno[..])
    ensures WellFormed(G) && IsIncludes(G, A, M, includes)
    ensures Looked(G, A, M, lookaheads[..], LAruleno[..], lookback[..], |M.from|, [])
  {
    hide *;
    Sizes(G, A);
    lookback := new seq<nat>[LAruleno.Length](_ => []);
    LookNone(G, A, M, lookaheads[..], LAruleno[..], lookback[..]);
    var rows := new seq<nat>[|M.from|](_ => []);
    NoIncluded(G, A, M, rows[..]);
    var i := 0;
    while i < |M.from|
      invariant i <= |M.from| && IncludedRows(G, A, M, rows[..], i)
      invariant Looked(G, A, M, lookaheads[..], LAruleno[..], lookback[..], i, [])
      modifies rows, lookback
    {
      GotoSize(G, A, M, i);
      ghost var was := rows[..];
      var edge := RelationsOf(G, A, M, nullable, lookaheads, LAruleno, lookback, i);
      MoreIncluded(G, A, M, was, i, edge);
      rows[i] := edge;
      assert rows[..] == was[i := edge];
      i := i + 1;
    }
    RowsValid(G, A, M, rows[..]);
    includes := Transpose(rows[..]);
    RowsTransposed(G, A, M, rows[..], includes);
  }
}
