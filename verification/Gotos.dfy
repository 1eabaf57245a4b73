/** The numbering of nonterminal gotos (lalr.c, set_goto_map and map_goto): a counting sort by symbol, and a
    binary search in the part of one symbol. */
module Gotos {
  import opened Grammars
  import opened Items
  import opened Automata

  /** State s goes to state t on symbol x. */
  ghost predicate IsGoto(A: Automaton, s: int, x: int, t: int) {
    0 <= s < |A.shifts| && 0 <= t < |A.acc| && A.acc[t] == x && t in A.shifts[s]
  }

  lemma GotoUnique(G: Grammar, A: Automaton, s: int, x: int, t: int, t': int)
    requires IsLR0(G, A) && IsGoto(A, s, x, t) && IsGoto(A, s, x, t')
    ensures t == t'
  {
    assert StateOk(G, A, s);
    var ss := A.shifts[s];
    var k :| 0 <= k < |ss| && ss[k] == t;
    var m :| 0 <= m < |ss| && ss[m] == t';
    assert GotoOk(G, A, s, ss[k]) && GotoOk(G, A, s, ss[m]);
  }

  /** Goto number k leads from from[k] to to[k]; those on symbol x are base[x - ntokens], ..., base[x - ntokens + 1] - 1. */
  datatype GotoMap = GotoMap(base: seq<nat>, from: seq<nat>, to: seq<nat>)

  predicate IsNonterminal(G: Grammar, x: int) { G.ntokens <= x < G.nsyms }

  ghost predicate InSegment(G: Grammar, M: GotoMap, x: nat, k: nat) {
    && IsNonterminal(G, x) && x - G.ntokens + 1 < |M.base| && k < |M.from| == |M.to|
    && M.base[x - G.ntokens] <= k < M.base[x - G.ntokens + 1]
  }

  /** The map lists exactly the nonterminal gotos of the automaton, by symbol and then by state. */
  ghost predicate GotosExact(G: Grammar, A: Automaton, M: GotoMap) {
    && BasesOk(G, M)
    && (forall x: nat, k: nat :: InSegment(G, M, x, k) ==> IsGoto(A, M.from[k], x, M.to[k]))
    && (forall x: nat, k: nat, m: nat :: InSegment(G, M, x, k) && InSegment(G, M, x, m) && k < m ==> M.from[k] < M.from[m])
    && (forall s: int, x: nat, t: int :: IsNonterminal(G, x) && IsGoto(A, s, x, t) ==> Listed(G, M, s, x, t))
  }

  /** The segments follow each other and cover all numbers. */
  ghost predicate BasesOk(G: Grammar, M: GotoMap) {
    && WellFormed(G)
    && |M.base| == NVars(G) + 1 && M.base[0] == 0 && M.base[NVars(G)] == |M.from| == |M.to|
    && (forall v, w :: 0 <= v <= w < |M.base| ==> M.base[v] <= M.base[w])
  }

  ghost predicate Listed(G: Grammar, M: GotoMap, s: int, x: nat, t: int) {
    exists k: nat :: InSegment(G, M, x, k) && M.from[k] == s && M.to[k] == t
  }

  // ----- Gotos on one symbol, state by state -----

  ghost predicate HasTarget(A: Automaton, s: nat, x: nat) { exists t :: IsGoto(A, s, x, t) }

  ghost function TargetOf(A: Automaton, s: nat, x: nat): (t: nat)
    requires HasTarget(A, s, x)
    ensures IsGoto(A, s, x, t)
  {
    var t :| IsGoto(A, s, x, t);
    t
  }

  /** The gotos on x of the first n states. */
  ghost function Column(A: Automaton, x: nat, n: nat): (c: seq<(nat, nat)>)
    ensures |c| <= n
    ensures forall j :: 0 <= j < |c| ==> c[j].0 < n && IsGoto(A, c[j].0, x, c[j].1)
    ensures forall i, j :: 0 <= i < j < |c| ==> c[i].0 < c[j].0
  {
    if n == 0 then [] else
      var c := Column(A, x, n - 1);
      if HasTarget(A, n - 1, x) then c + [(n - 1, TargetOf(A, n - 1, x))] else c
  }

  lemma {:induction false} ColumnHas(G: Grammar, A: Automaton, x: nat, n: nat, s: int, t: int) returns (j: nat)
    requires IsLR0(G, A) && IsGoto(A, s, x, t) && s < n
    ensures j < |Column(A, x, n)| && Column(A, x, n)[j] == (s, t)
    decreases n
  {
    assert HasTarget(A, s, x);
    if s == n - 1 {
      j := |Column(A, x, n - 1)|;
      GotoUnique(G, A, s, x, t, TargetOf(A, s, x));
    } else {
      j := ColumnHas(G, A, x, n - 1, s, t);
    }
  }

  lemma {:induction false} ColumnPrefix(A: Automaton, x: nat, m: nat, n: nat)
    requires m <= n
    ensures Column(A, x, m) <= Column(A, x, n)
    decreases n
  {
    if m < n { ColumnPrefix(A, x, m, n - 1); }
  }

  // ----- Counting -----

  function Sum(s: seq<nat>): nat { if |s| == 0 then 0 else Sum(s[..|s| - 1]) + s[|s| - 1] }

  lemma {:induction false} SumUp(s: seq<nat>, i: nat, s': seq<nat>)
    requires i < |s| && s' == s[i := s[i] + 1]
    ensures Sum(s') == Sum(s) + 1
    decreases |s|
  {
    var n := |s| - 1;
    if i == n {
      assert s'[..n] == s[..n];
    } else {
      assert s'[..n] == s[..n][i := s[..n][i] + 1];
      SumUp(s[..n], i, s'[..n]);
    }
  }

  lemma {:induction false} SumZero(s: seq<nat>)
    requires forall i :: 0 <= i < |s| ==> s[i] == 0
    ensures Sum(s) == 0
    decreases |s|
  {
    if |s| > 0 { SumZero(s[..|s| - 1]); }
  }

  /** One of the shifts from index i on is on x. */
  ghost predicate InTail(A: Automaton, s: nat, i: nat, x: nat) {
    s < |A.shifts| && exists k: nat :: i <= k < |A.shifts[s]| && A.shifts[s][k] < |A.acc| && A.acc[A.shifts[s][k]] == x
  }

  /** Done with the gotos on x of the first s states, and with those from shift i on in state s. */
  ghost function Progress(A: Automaton, s: nat, i: nat, x: nat): (c: seq<(nat, nat)>) {
    if InTail(A, s, i, x) then Column(A, x, s + 1) else Column(A, x, s)
  }

  lemma ShiftSymbol(G: Grammar, A: Automaton, s: nat, i: nat)
    requires IsLR0(G, A) && s < A.NStates() && i < |A.shifts[s]|
    ensures A.shifts[s][i] < |A.acc| && 0 < A.acc[A.shifts[s][i]] < G.nsyms && A.acc[A.shifts[s][i]] != G.ntokens
    ensures IsGoto(A, s, A.acc[A.shifts[s][i]], A.shifts[s][i])
  {
    hide InState, WellFormed, AreItems;
    assert StateOk(G, A, s);
    var t := A.shifts[s][i];
    assert GotoOk(G, A, s, A.shifts[s][i]);
    var j :| Shifted(G, A, s, A.acc[t], j);
    hide IsLR0, KernelsOk, StateOk;
    ItemSymbol(G, j - 1);
  }

  lemma ItemSymbol(G: Grammar, i: int)
    requires WellFormed(G) && IsItem(G, i)
    ensures G.ritem[i] < G.nsyms && G.ritem[i] != G.ntokens
  {
    var r := FindRule(G, i, |G.rlhs|);
    EndOfRule(G, i, r);
    assert RuleOk(G, r);
    assert i < G.rrhs[r + 1] - 1 ==> SymbolOk(G, r, G.ritem[i]);
  }

  lemma ShiftOrder(G: Grammar, A: Automaton, s: nat, k: nat, m: nat)
    requires IsLR0(G, A) && s < A.NStates() && k < m < |A.shifts[s]|
    ensures A.shifts[s][k] < |A.acc| && A.shifts[s][m] < |A.acc| && A.acc[A.shifts[s][k]] < A.acc[A.shifts[s][m]]
  {
    assert StateOk(G, A, s);
    assert GotoOk(G, A, s, A.shifts[s][k]) && GotoOk(G, A, s, A.shifts[s][m]);
  }

  /** The next shift downwards: its symbol makes progress, no other does. */
  lemma TailStep(G: Grammar, A: Automaton, s: nat, i: nat, x: nat)
    requires IsLR0(G, A) && s < A.NStates() && i < |A.shifts[s]|
    ensures A.shifts[s][i] < |A.acc| && InTail(A, s, i, x) == (InTail(A, s, i + 1, x) || A.acc[A.shifts[s][i]] == x)
    ensures A.acc[A.shifts[s][i]] == x ==> Progress(A, s, i, x) == Progress(A, s, i + 1, x) + [(s, A.shifts[s][i])]
    ensures A.acc[A.shifts[s][i]] != x ==> Progress(A, s, i, x) == Progress(A, s, i + 1, x)
  {
    ShiftSymbol(G, A, s, i);
    forall k: nat | i < k < |A.shifts[s]| ensures A.shifts[s][k] < |A.acc| && A.acc[A.shifts[s][i]] < A.acc[A.shifts[s][k]] {
      ShiftOrder(G, A, s, i, k);
    }
    var t := A.shifts[s][i];
    assert InTail(A, s, i, A.acc[t]) by { assert i <= i < |A.shifts[s]|; }
    if A.acc[t] == x {
      assert HasTarget(A, s, x);
      GotoUnique(G, A, s, x, t, TargetOf(A, s, x));
    }
  }

  /** When a token is met, the rest of the shifts are on tokens, and the state is done. */
  lemma TailDone(G: Grammar, A: Automaton, s: nat, i: nat, x: nat)
    requires IsLR0(G, A) && s < A.NStates() && i <= |A.shifts[s]| && x >= G.ntokens
    requires i > 0 ==> A.shifts[s][i - 1] < |A.acc| && A.acc[A.shifts[s][i - 1]] < G.ntokens
    ensures Progress(A, s, i, x) == Column(A, x, s + 1)
  {
    forall k: nat | k < i ensures A.shifts[s][k] < |A.acc| && A.acc[A.shifts[s][k]] < G.ntokens {
      if k < i - 1 { ShiftOrder(G, A, s, k, i - 1); }
    }
    hide IsLR0;
    if t :| IsGoto(A, s, x, t) {
      var k: nat :| k < |A.shifts[s]| && A.shifts[s][k] == t;
      assert InTail(A, s, i, x);
    }
  }

  lemma TailStart(G: Grammar, A: Automaton, s: nat, x: nat)
    requires s < |A.shifts|
    ensures Progress(A, s, |A.shifts[s]|, x) == Column(A, x, s)
  {}

  /** counts[x - ntokens] is the length of the progress on x. */
  ghost predicate Counts(G: Grammar, A: Automaton, counts: seq<nat>, s: nat, i: nat)
    requires WellFormed(G)
  {
    |counts| == NVars(G) + 1 && counts[NVars(G)] == 0
    && forall x: nat :: IsNonterminal(G, x) ==> counts[x - G.ntokens] == |Progress(A, s, i, x)|
  }

  lemma CountOne(G: Grammar, A: Automaton, counts: seq<nat>, s: nat, i: nat, counts': seq<nat>)
    requires IsLR0(G, A) && s < A.NStates() && i < |A.shifts[s]| && Counts(G, A, counts, s, i + 1)
    requires A.shifts[s][i] < |A.acc| && IsNonterminal(G, A.acc[A.shifts[s][i]])
    requires var v := A.acc[A.shifts[s][i]] - G.ntokens; counts' == counts[v := counts[v] + 1]
    ensures Counts(G, A, counts', s, i)
  {
    hide IsLR0, WellFormed, Progress, InTail;
    forall x: nat | IsNonterminal(G, x) ensures counts'[x - G.ntokens] == |Progress(A, s, i, x)| {
      TailStep(G, A, s, i, x);
    }
  }

  lemma CountsDone(G: Grammar, A: Automaton, counts: seq<nat>, s: nat, i: nat)
    requires IsLR0(G, A) && s < A.NStates() && i <= |A.shifts[s]| && Counts(G, A, counts, s, i)
    requires i > 0 ==> A.shifts[s][i - 1] < |A.acc| && A.acc[A.shifts[s][i - 1]] < G.ntokens
    ensures ColumnCounts(G, A, counts, s + 1)
  {
    hide IsLR0, WellFormed, Progress, InTail;
    forall x: nat | IsNonterminal(G, x) ensures counts[x - G.ntokens] == |Column(A, x, s + 1)| {
      TailDone(G, A, s, i, x);
    }
  }

  lemma CountsStart(G: Grammar, A: Automaton, counts: seq<nat>, s: nat)
    requires WellFormed(G) && s < |A.shifts| && ColumnCounts(G, A, counts, s)
    ensures Counts(G, A, counts, s, |A.shifts[s]|)
  {
    hide WellFormed, Progress, InTail;
    forall x: nat | IsNonterminal(G, x) ensures counts[x - G.ntokens] == |Progress(A, s, |A.shifts[s]|, x)| {
      TailStart(G, A, s, x);
    }
  }

  ghost predicate ColumnCounts(G: Grammar, A: Automaton, counts: seq<nat>, s: nat)
    requires WellFormed(G)
  {
    |counts| == NVars(G) + 1 && counts[NVars(G)] == 0
    && forall x: nat :: IsNonterminal(G, x) ==> counts[x - G.ntokens] == |Column(A, x, s)|
  }

  /** The first loop of set_goto_map. */
  method CountGotos(G: Grammar, A: Automaton, gotoMap: array<nat>) returns (ngotos: nat)
    requires IsLR0(G, A) && gotoMap.Length == NVars(G) + 1 && forall v :: 0 <= v < gotoMap.Length ==> gotoMap[v] == 0
    modifies gotoMap
    ensures ColumnCounts(G, A, gotoMap[..], A.NStates()) && ngotos == Sum(gotoMap[..])
  {
    ngotos := 0;
    SumZero(gotoMap[..]);
    NoCounts(G, A, gotoMap[..]);
    Sizes(G, A);
    hide *;
    var s: nat := 0;
    while s < |A.shifts|
      invariant s <= |A.shifts| && ngotos == Sum(gotoMap[..])
      invariant ColumnCounts(G, A, gotoMap[..], s)
    {
      ngotos := CountState(G, A, gotoMap, s, ngotos);
      s := s + 1;
    }
  }

  /** The shifts of one state, from the last one down to the first token. */
  method CountState(G: Grammar, A: Automaton, gotoMap: array<nat>, s: nat, count: nat) returns (ngotos: nat)
    requires IsLR0(G, A) && s < A.NStates() && ColumnCounts(G, A, gotoMap[..], s) && count == Sum(gotoMap[..])
    modifies gotoMap
    ensures ColumnCounts(G, A, gotoMap[..], s + 1) && ngotos == Sum(gotoMap[..])
  {
    hide *;
    ngotos := count;
    Sizes(G, A);
    CountsStart(G, A, gotoMap[..], s);
    CountsSize(G, A, gotoMap[..], s);
    var i: nat := |A.shifts[s]|;
    while i > 0
      invariant i <= |A.shifts[s]| && ngotos == Sum(gotoMap[..])
      invariant Counts(G, A, gotoMap[..], s, i)
    {
      ShiftSymbol(G, A, s, i - 1);
      var symbol := A.acc[A.shifts[s][i - 1]];
      if symbol < G.ntokens { break; }
      ghost var was := gotoMap[..];
      ngotos := ngotos + 1;
      CountUp(gotoMap, symbol - G.ntokens);
      SumUp(was, symbol - G.ntokens, gotoMap[..]);
      NonterminalIntro(G, symbol);
      CountOne(G, A, was, s, i - 1, gotoMap[..]);
      i := i - 1;
    }
    CountsDone(G, A, gotoMap[..], s, i);
  }

  method CountUp(a: array<nat>, v: nat)
    requires v < a.Length
    modifies a
    ensures a[..] == old(a[..])[v := old(a[..])[v] + 1]
  {
    a[v] := a[v] + 1;
  }

  lemma NonterminalIntro(G: Grammar, x: nat)
    ensures IsNonterminal(G, x) <==> G.ntokens <= x < G.nsyms
  {}

  lemma NoCounts(G: Grammar, A: Automaton, counts: seq<nat>)
    requires WellFormed(G) && |counts| == NVars(G) + 1 && forall v :: 0 <= v < |counts| ==> counts[v] == 0
    ensures ColumnCounts(G, A, counts, 0)
  {}

  lemma CountsSize(G: Grammar, A: Automaton, counts: seq<nat>, s: nat)
    requires WellFormed(G) && ColumnCounts(G, A, counts, s)
    ensures |counts| == G.nsyms - G.ntokens + 1
  {}

  lemma Sizes(G: Grammar, A: Automaton)
    requires IsLR0(G, A)
    ensures |A.shifts| == |A.acc| == |A.reds| == A.NStates() && WellFormed(G) && KernelsOk(G, A)
  {}

  // ----- Filling -----

  /** Where the gotos of each symbol begin. */
  ghost predicate IsBase(G: Grammar, A: Automaton, base: seq<nat>, ngotos: nat)
    requires WellFormed(G)
  {
    && |base| == NVars(G) + 1 && base[0] == 0 && base[NVars(G)] == ngotos
    && forall x: nat :: IsNonterminal(G, x) ==> BaseStep(G, A, base, x)
  }

  ghost predicate BaseStep(G: Grammar, A: Automaton, base: seq<nat>, x: nat)
    requires IsNonterminal(G, x) && |base| > x - G.ntokens + 1
  {
    base[x - G.ntokens + 1] == base[x - G.ntokens] + |Column(A, x, |A.shifts|)|
  }

  lemma {:induction false} BaseOrder(G: Grammar, A: Automaton, base: seq<nat>, ngotos: nat, v: nat, w: nat)
    requires WellFormed(G) && IsBase(G, A, base, ngotos) && v <= w <= NVars(G)
    ensures base[v] <= base[w] && (v < w ==> base[v] + |Column(A, v + G.ntokens, |A.shifts|)| <= base[w])
    decreases w
  {
    if v < w {
      assert IsNonterminal(G, w - 1 + G.ntokens) && BaseStep(G, A, base, w - 1 + G.ntokens);
      BaseOrder(G, A, base, ngotos, v, w - 1);
    }
  }

  /** The entries c are stored from index b on. */
  ghost predicate Stored(b: nat, c: seq<(nat, nat)>, from: seq<nat>, to: seq<nat>) {
    b + |c| <= |from| == |to| && forall j: nat :: j < |c| ==> from[b + j] == c[j].0 && to[b + j] == c[j].1
  }

  /** The gotos of the progress so far are stored, and tempMap points behind those of each symbol. */
  ghost predicate Filled(G: Grammar, A: Automaton, base: seq<nat>, temp: seq<nat>, from: seq<nat>, to: seq<nat>, s: nat, i: nat)
    requires WellFormed(G)
  {
    && |base| == |temp| == NVars(G) + 1
    && forall x: nat :: IsNonterminal(G, x) ==> FilledAt(G, base, temp, from, to, x, Progress(A, s, i, x))
  }

  ghost predicate FilledAt(G: Grammar, base: seq<nat>, temp: seq<nat>, from: seq<nat>, to: seq<nat>, x: nat, c: seq<(nat, nat)>)
    requires IsNonterminal(G, x) && |base| == |temp| > x - G.ntokens
  {
    temp[x - G.ntokens] == base[x - G.ntokens] + |c| && Stored(base[x - G.ntokens], c, from, to)
  }

  lemma ProgressBound(A: Automaton, s: nat, i: nat, x: nat)
    requires s < |A.shifts|
    ensures |Progress(A, s, i, x)| <= |Column(A, x, |A.shifts|)|
  {
    ColumnPrefix(A, x, s, |A.shifts|);
    ColumnPrefix(A, x, s + 1, |A.shifts|);
  }

  /** Storing one goto of symbol x disturbs no other. */
  lemma FillOne(G: Grammar, A: Automaton, base: seq<nat>, temp: seq<nat>, from: seq<nat>, to: seq<nat>, s: nat, i: nat, x: nat, k: nat)
    requires IsLR0(G, A) && s < A.NStates() && i < |A.shifts[s]| && Filled(G, A, base, temp, from, to, s, i + 1)
    requires A.shifts[s][i] < |A.acc| && IsNonterminal(G, x) && x == A.acc[A.shifts[s][i]] && k == temp[x - G.ntokens]
    requires IsBase(G, A, base, |from|) && |from| == |to|
    ensures k < |from|
    ensures Filled(G, A, base, temp[x - G.ntokens := k + 1], from[k := s], to[k := A.shifts[s][i]], s, i)
  {
    TailStep(G, A, s, i, x);
    hide IsLR0, WellFormed, Progress, InTail;
    ghost var b := base[x - G.ntokens];
    assert FilledAt(G, base, temp, from, to, x, Progress(A, s, i + 1, x));
    ProgressBound(A, s, i, x);
    assert BaseStep(G, A, base, x);
    BaseOrder(G, A, base, |from|, x - G.ntokens + 1, NVars(G));
    var t := A.shifts[s][i];
    forall y: nat | IsNonterminal(G, y)
      ensures FilledAt(G, base, temp[x - G.ntokens := k + 1], from[k := s], to[k := t], y, Progress(A, s, i, y))
    {
      TailStep(G, A, s, i, y);
      assert FilledAt(G, base, temp, from, to, y, Progress(A, s, i + 1, y));
      if y != x {
        ProgressBound(A, s, i + 1, y);
        ProgressBound(A, s, i + 1, x);
        Apart(G, A, base, |from|, x, y);
      }
    }
  }

  /** Segments of different symbols are apart. */
  lemma Apart(G: Grammar, A: Automaton, base: seq<nat>, ngotos: nat, x: nat, y: nat)
    requires WellFormed(G) && IsBase(G, A, base, ngotos) && IsNonterminal(G, x) && IsNonterminal(G, y)
    ensures x < y ==> base[x - G.ntokens] + |Column(A, x, |A.shifts|)| <= base[y - G.ntokens]
    ensures y < x ==> base[y - G.ntokens] + |Column(A, y, |A.shifts|)| <= base[x - G.ntokens]
  {
    if x < y { BaseOrder(G, A, base, ngotos, x - G.ntokens, y - G.ntokens); }
    if y < x { BaseOrder(G, A, base, ngotos, y - G.ntokens, x - G.ntokens); }
  }

  ghost predicate FilledColumns(G: Grammar, A: Automaton, base: seq<nat>, temp: seq<nat>, from: seq<nat>, to: seq<nat>, s: nat)
    requires WellFormed(G)
  {
    && |base| == |temp| == NVars(G) + 1
    && forall x: nat :: IsNonterminal(G, x) ==> FilledAt(G, base, temp, from, to, x, Column(A, x, s))
  }

  lemma FillNone(G: Grammar, A: Automaton, base: seq<nat>, from: seq<nat>, to: seq<nat>)
    requires WellFormed(G) && IsBase(G, A, base, |from|) && |from| == |to|
    ensures FilledColumns(G, A, base, base, from, to, 0)
  {
    forall x: nat | IsNonterminal(G, x) ensures FilledAt(G, base, base, from, to, x, Column(A, x, 0)) {
      BaseOrder(G, A, base, |from|, x - G.ntokens, NVars(G));
    }
  }

  lemma FillStart(G: Grammar, A: Automaton, base: seq<nat>, temp: seq<nat>, from: seq<nat>, to: seq<nat>, s: nat)
    requires WellFormed(G) && s < |A.shifts| && FilledColumns(G, A, base, temp, from, to, s)
    ensures Filled(G, A, base, temp, from, to, s, |A.shifts[s]|) && |temp| == G.nsyms - G.ntokens + 1
  {
    hide Progress, FilledAt;
    forall x: nat | IsNonterminal(G, x) ensures FilledAt(G, base, temp, from, to, x, Progress(A, s, |A.shifts[s]|, x)) {
      TailStart(G, A, s, x);
    }
  }

  lemma FillDone(G: Grammar, A: Automaton, base: seq<nat>, temp: seq<nat>, from: seq<nat>, to: seq<nat>, s: nat, i: nat)
    requires IsLR0(G, A) && s < A.NStates() && i <= |A.shifts[s]| && Filled(G, A, base, temp, from, to, s, i)
    requires i > 0 ==> A.shifts[s][i - 1] < |A.acc| && A.acc[A.shifts[s][i - 1]] < G.ntokens
    ensures FilledColumns(G, A, base, temp, from, to, s + 1)
  {
    hide Progress, FilledAt, IsLR0;
    forall x: nat | IsNonterminal(G, x) ensures FilledAt(G, base, temp, from, to, x, Column(A, x, s + 1)) {
      TailDone(G, A, s, i, x);
    }
  }

  /** The last loop of set_goto_map, for one state. */
  method FillState(G: Grammar, A: Automaton, ghost base: seq<nat>, tempMap: array<nat>, fromState: array<nat>, toState: array<nat>, s: nat)
    requires IsLR0(G, A) && s < A.NStates() && IsBase(G, A, base, fromState.Length) && fromState.Length == toState.Length
    requires tempMap != fromState && tempMap != toState && fromState != toState
    requires FilledColumns(G, A, base, tempMap[..], fromState[..], toState[..], s)
    modifies tempMap, fromState, toState
    ensures FilledColumns(G, A, base, tempMap[..], fromState[..], toState[..], s + 1)
  {
    hide *;
    Sizes(G, A);
    FillStart(G, A, base, tempMap[..], fromState[..], toState[..], s);
    var i: nat := |A.shifts[s]|;
    while i > 0
      invariant i <= |A.shifts[s]|
      invariant Filled(G, A, base, tempMap[..], fromState[..], toState[..], s, i)
    {
      ShiftSymbol(G, A, s, i - 1);
      var state2 := A.shifts[s][i - 1];
      var symbol := A.acc[state2];
      if symbol < G.ntokens { break; }
      NonterminalIntro(G, symbol);
      ghost var temp, from, to := tempMap[..], fromState[..], toState[..];
      var k := tempMap[symbol - G.ntokens];
      FillOne(G, A, base, temp, from, to, s, i - 1, symbol, k);
      tempMap[symbol - G.ntokens] := k + 1;
      fromState[k] := s;
      toState[k] := state2;
      assert tempMap[..] == temp[symbol - G.ntokens := k + 1] && fromState[..] == from[k := s] && toState[..] == to[k := state2];
      i := i - 1;
    }
    FillDone(G, A, base, tempMap[..], fromState[..], toState[..], s, i);
  }

  lemma {:induction false} SumSlice(s: seq<nat>, v: nat)
    requires v < |s|
    ensures Sum(s[..v + 1]) == Sum(s[..v]) + s[v]
  {
    assert s[..v + 1][..v] == s[..v];
  }

  /** The prefix sums of set_goto_map. */
  method PrefixSums(G: Grammar, ghost A: Automaton, gotoMap: array<nat>, ngotos: nat) returns (tempMap: array<nat>)
    requires IsLR0(G, A) && ColumnCounts(G, A, gotoMap[..], A.NStates()) && ngotos == Sum(gotoMap[..])
    modifies gotoMap
    ensures fresh(tempMap) && tempMap[..] == gotoMap[..] && IsBase(G, A, gotoMap[..], ngotos)
  {
    hide *;
    ghost var counts := gotoMap[..];
    var nvars := G.nsyms - G.ntokens;
    CountsEnd(G, A, counts);
    tempMap := new nat[nvars + 1](_ => 0);
    var k, i := 0, 0;
    assert counts[..0] == [];
    while i < nvars
      invariant i <= nvars && k == Sum(counts[..i]) && gotoMap[..] == counts
      invariant forall v :: 0 <= v < i ==> tempMap[v] == Sum(counts[..v])
      modifies tempMap
    {
      SumSlice(counts, i);
      tempMap[i] := k;
      k := k + gotoMap[i];
      i := i + 1;
    }
    SumSlice(counts, nvars);
    assert counts[..nvars + 1] == counts;
    i := 0;
    while i < nvars
      invariant i <= nvars
      invariant forall v :: 0 <= v < i ==> gotoMap[v] == tempMap[v]
      invariant forall v :: 0 <= v < nvars ==> tempMap[v] == Sum(counts[..v])
      modifies gotoMap
    {
      gotoMap[i] := tempMap[i];
      i := i + 1;
    }
    gotoMap[nvars] := ngotos;
    tempMap[nvars] := ngotos;
    SumsAreBase(G, A, counts, gotoMap[..]);
  }

  lemma CountsEnd(G: Grammar, A: Automaton, counts: seq<nat>)
    requires IsLR0(G, A) && ColumnCounts(G, A, counts, A.NStates())
    ensures WellFormed(G) && |A.shifts| == A.NStates() && |counts| == G.nsyms - G.ntokens + 1 && counts[G.nsyms - G.ntokens] == 0
    ensures Sum([]) == 0
  {}

  lemma SumsAreBase(G: Grammar, A: Automaton, counts: seq<nat>, base: seq<nat>)
    requires WellFormed(G) && ColumnCounts(G, A, counts, A.NStates()) && |base| == |counts| == G.nsyms - G.ntokens + 1
    requires |A.shifts| == A.NStates()
    requires forall v :: 0 <= v <= G.nsyms - G.ntokens ==> base[v] == Sum(counts[..v])
    ensures IsBase(G, A, base, Sum(counts[..G.nsyms - G.ntokens]))
  {
    forall x: nat | IsNonterminal(G, x) ensures BaseStep(G, A, base, x) {
      SumSlice(counts, x - G.ntokens);
    }
  }

  /** set_goto_map */
  method SetGotoMap(G: Grammar, A: Automaton) returns (gotoMap: array<nat>, fromState: array<nat>, toState: array<nat>)
    requires IsLR0(G, A)
    ensures GotosExact(G, A, GotoMap(gotoMap[..], fromState[..], toState[..]))
  {
    Sizes(G, A);
    gotoMap := new nat[G.nsyms - G.ntokens + 1](_ => 0);
    var ngotos := CountGotos(G, A, gotoMap);
    var tempMap := PrefixSums(G, A, gotoMap, ngotos);
    fromState := new nat[ngotos](_ => 0);
    toState := new nat[ngotos](_ => 0);
    ghost var base := gotoMap[..];
    FillNone(G, A, base, fromState[..], toState[..]);
    hide *;
    var s: nat := 0;
    while s < |A.shifts|
      invariant s <= |A.shifts| && gotoMap[..] == base
      invariant FilledColumns(G, A, base, tempMap[..], fromState[..], toState[..], s)
      modifies tempMap, fromState, toState
    {
      FillState(G, A, base, tempMap, fromState, toState, s);
      s := s + 1;
    }
    FilledIsExact(G, A, tempMap[..], GotoMap(base, fromState[..], toState[..]));
  }

  lemma SegmentColumn(G: Grammar, A: Automaton, temp: seq<nat>, M: GotoMap, x: nat, k: nat)
    requires WellFormed(G) && IsBase(G, A, M.base, |M.from|) && FilledColumns(G, A, M.base, temp, M.from, M.to, |A.shifts|)
    requires InSegment(G, M, x, k)
    ensures k - M.base[x - G.ntokens] < |Column(A, x, |A.shifts|)|
    ensures Column(A, x, |A.shifts|)[k - M.base[x - G.ntokens]] == (M.from[k], M.to[k])
  {
    assert BaseStep(G, A, M.base, x);
    assert FilledAt(G, M.base, temp, M.from, M.to, x, Column(A, x, |A.shifts|));
    var j := k - M.base[x - G.ntokens];
    assert Column(A, x, |A.shifts|)[j].0 == M.from[M.base[x - G.ntokens] + j];
  }

  lemma FilledIsExact(G: Grammar, A: Automaton, temp: seq<nat>, M: GotoMap)
    requires IsLR0(G, A) && IsBase(G, A, M.base, |M.from|) && |M.from| == |M.to|
    requires FilledColumns(G, A, M.base, temp, M.from, M.to, |A.shifts|)
    ensures GotosExact(G, A, M)
  {
    assert WellFormed(G);
    hide IsLR0, WellFormed;
    forall x: nat, k: nat | InSegment(G, M, x, k) ensures IsGoto(A, M.from[k], x, M.to[k]) {
      SegmentColumn(G, A, temp, M, x, k);
    }
    forall x: nat, k: nat, m: nat | InSegment(G, M, x, k) && InSegment(G, M, x, m) && k < m ensures M.from[k] < M.from[m] {
      SegmentColumn(G, A, temp, M, x, k);
      SegmentColumn(G, A, temp, M, x, m);
    }
    forall s: int, x: nat, t: int | IsNonterminal(G, x) && IsGoto(A, s, x, t) ensures Listed(G, M, s, x, t) {
      var j := ColumnHas(G, A, x, |A.shifts|, s, t);
      var k: nat := M.base[x - G.ntokens] + j;
      assert BaseStep(G, A, M.base, x);
      assert FilledAt(G, M.base, temp, M.from, M.to, x, Column(A, x, |A.shifts|));
      assert InSegment(G, M, x, k);
    }
    forall v: nat, w: nat | v <= w < |M.base| ensures M.base[v] <= M.base[w] {
      BaseOrder(G, A, M.base, |M.from|, v, w);
    }
  }

  // ----- Searching -----

  /** map_goto: the search never leaves the segment of its symbol, although it starts with the first index
      behind it as its upper limit. */
  method MapGoto(G: Grammar, ghost A: Automaton, M: GotoMap, state: nat, symbol: nat) returns (middle: nat)
    requires GotosExact(G, A, M) && IsNonterminal(G, symbol) && HasTarget(A, state, symbol)
    ensures InSegment(G, M, symbol, middle) && M.from[middle] == state
  {
    ghost var t :| IsGoto(A, state, symbol, t);
    assert Listed(G, M, state, symbol, t);
    ghost var g: nat :| InSegment(G, M, symbol, g) && M.from[g] == state && M.to[g] == t;
    var low, high: int := M.base[symbol - G.ntokens], M.base[symbol - G.ntokens + 1];
    hide WellFormed, IsGoto, Listed;
    while true
      invariant M.base[symbol - G.ntokens] <= low <= g <= high <= M.base[symbol - G.ntokens + 1]
      invariant high == M.base[symbol - G.ntokens + 1] ==> low < high
      decreases high - low
    {
      middle := (low + high) / 2;
      assert InSegment(G, M, symbol, middle);
      var s := M.from[middle];
      if s == state {
        return;
      } else if s < state {
        low := middle + 1;
      } else {
        high := middle - 1;
      }
    }
  }
}
