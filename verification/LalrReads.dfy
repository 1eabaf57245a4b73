/** The Read sets and the numbering of reductions (lalr.c, initialize_F and initialize_LA). The arrays of
    set_goto_map are only read from here on; they are passed along as the value `M`. */
module LalrReads {
  import opened Grammars
  import opened Relation
  import opened Automata
  import opened Closures
  import opened Lr0Spec
  import opened Nullables
  import opened Digraphs
  import opened Gotos
  import opened LalrSpec
  import opened LalrFollow

  /** nullable[x] says whether symbol x derives the empty string. */
  ghost predicate IsNullable(G: Grammar, nullable: seq<bool>)
    requires WellFormed(G)
  {
    |nullable| == G.nsyms && forall x: nat :: x < G.nsyms ==> (nullable[x] <==> DerivesEmpty(G, x))
  }

  // ----- Reads -----

  /** The tokens that can be shifted in state s. */
  ghost function ShiftTokens(G: Grammar, A: Automaton, s: nat): (r: set<int>)
    ensures forall a :: a in r <==> 0 <= a < G.ntokens && HasTarget(A, s, a)
  {
    set a | 0 <= a < G.ntokens && HasTarget(A, s, a)
  }

  /** Symbols of the first j shifts. */
  ghost predicate SymbolAmong(A: Automaton, s: nat, lo: nat, j: nat, x: int) {
    s < |A.shifts| && j <= |A.shifts[s]| && exists k: nat :: lo <= k < j && A.shifts[s][k] < |A.acc| && A.acc[A.shifts[s][k]] == x
  }

  lemma AmongMeans(G: Grammar, A: Automaton, s: nat, x: nat)
    requires IsLR0(G, A) && s < A.NStates()
    ensures SymbolAmong(A, s, 0, |A.shifts[s]|, x) <==> HasTarget(A, s, x)
  {
    if t :| IsGoto(A, s, x, t) {
      var k: nat :| k < |A.shifts[s]| && A.shifts[s][k] == t;
      assert SymbolAmong(A, s, 0, |A.shifts[s]|, x);
    }
    if SymbolAmong(A, s, 0, |A.shifts[s]|, x) {
      var k: nat :| 0 <= k < |A.shifts[s]| && A.shifts[s][k] < |A.acc| && A.acc[A.shifts[s][k]] == x;
      ShiftSymbol(G, A, s, k);
    }
  }

  lemma AmongMore(A: Automaton, s: nat, lo: nat, j: nat, x: int)
    requires s < |A.shifts| && lo <= j < |A.shifts[s]| && A.shifts[s][j] < |A.acc|
    ensures SymbolAmong(A, s, lo, j + 1, x) <==> SymbolAmong(A, s, lo, j, x) || A.acc[A.shifts[s][j]] == x
  {
    if A.acc[A.shifts[s][j]] == x { assert lo <= j < j + 1; }
  }

  lemma AmongSplit(A: Automaton, s: nat, lo: nat, j: nat, x: int)
    requires s < |A.shifts| && lo <= j <= |A.shifts[s]|
    ensures SymbolAmong(A, s, 0, j, x) <==> SymbolAmong(A, s, 0, lo, x) || SymbolAmong(A, s, lo, j, x)
  {}

  /** Tokens come before nonterminals. */
  lemma AmongKinds(G: Grammar, A: Automaton, s: nat, j: nat, x: int)
    requires IsLR0(G, A) && s < A.NStates() && j <= |A.shifts[s]|
    requires j < |A.shifts[s]| ==> A.shifts[s][j] < |A.acc| && A.acc[A.shifts[s][j]] >= G.ntokens
    ensures SymbolAmong(A, s, j, |A.shifts[s]|, x) ==> G.ntokens <= x < G.nsyms
  {
    if SymbolAmong(A, s, j, |A.shifts[s]|, x) {
      var k: nat :| j <= k < |A.shifts[s]| && A.shifts[s][k] < |A.acc| && A.acc[A.shifts[s][k]] == x;
      ShiftSymbol(G, A, s, k);
      if j < k { ShiftOrder(G, A, s, j, k); }
    }
  }

  /** Goto k starts in state s and is on a nullable nonterminal. */
  ghost predicate NullableFrom(G: Grammar, A: Automaton, M: GotoMap, s: nat, k: nat)
    requires WellFormed(G)
  {
    Numbered(M, k) && M.from[k] == s && NullableSymbol(G, SymbolOf(A, M, k))
  }

  /** The gotos on nullable nonterminals among the first j shifts of state s. */
  ghost predicate EdgesTo(G: Grammar, A: Automaton, M: GotoMap, s: nat, lo: nat, j: nat, edge: seq<nat>)
    requires WellFormed(G)
  {
    forall k: nat :: k in edge <==> EdgeTo(G, A, M, s, lo, j, k)
  }

  ghost predicate EdgeTo(G: Grammar, A: Automaton, M: GotoMap, s: nat, lo: nat, j: nat, k: nat)
    requires WellFormed(G)
  {
    Numbered(M, k) && M.from[k] == s && SymbolAmong(A, s, lo, j, SymbolOf(A, M, k)) && NullableSymbol(G, SymbolOf(A, M, k))
  }

  /** The row of one goto in initialize_F. */
  method ReadsOf(G: Grammar, A: Automaton, M: GotoMap, nullable: array<bool>, stateno: nat) returns (row: set<int>, edge: seq<nat>)
    requires IsLR0(G, A) && GotosExact(G, A, M) && IsNullable(G, nullable[..]) && stateno < A.NStates()
    ensures row == ShiftTokens(G, A, stateno) && WellFormed(G)
    ensures forall k: nat :: k in edge <==> NullableFrom(G, A, M, stateno, k)
  {
    hide *;
    Sizes(G, A);
    row := {};
    NoneAmong(A, stateno, 0);
    var j: nat := 0;
    while j < |A.shifts[stateno]|
      invariant j <= |A.shifts[stateno]|
      invariant forall a :: a in row <==> SymbolAmong(A, stateno, 0, j, a)
      invariant forall a :: a in row ==> 0 <= a < G.ntokens
    {
      ShiftSymbol(G, A, stateno, j);
      var symbol := A.acc[A.shifts[stateno][j]];
      if symbol >= G.ntokens { break; }
      forall a ensures a in row + {symbol} <==> SymbolAmong(A, stateno, 0, j + 1, a) { AmongMore(A, stateno, 0, j, a); }
      row := row + {symbol};
      j := j + 1;
    }
    RowDone(G, A, stateno, j, row);
    edge := NullableEdges(G, A, M, nullable, stateno, j);
    forall k: nat ensures k in edge <==> NullableFrom(G, A, M, stateno, k) {
      EdgesMean(G, A, M, stateno, j, edge, k);
    }
  }

  lemma NoneAmong(A: Automaton, s: nat, lo: nat)
    ensures forall a :: !SymbolAmong(A, s, lo, lo, a)
  {}

  lemma RowDone(G: Grammar, A: Automaton, s: nat, j: nat, row: set<int>)
    requires IsLR0(G, A) && s < A.NStates() && j <= |A.shifts[s]|
    requires j < |A.shifts[s]| ==> A.shifts[s][j] < |A.acc| && A.acc[A.shifts[s][j]] >= G.ntokens
    requires forall a :: a in row <==> SymbolAmong(A, s, 0, j, a)
    requires forall a :: a in row ==> 0 <= a < G.ntokens
    ensures row == ShiftTokens(G, A, s)
  {
    Sizes(G, A);
    hide IsLR0, SymbolAmong, HasTarget;
    forall a: int | 0 <= a < G.ntokens ensures a in row <==> HasTarget(A, s, a) {
      AmongMeans(G, A, s, a);
      AmongSplit(A, s, j, |A.shifts[s]|, a);
      AmongKinds(G, A, s, j, a);
    }
  }

  lemma EdgesMean(G: Grammar, A: Automaton, M: GotoMap, s: nat, j: nat, edge: seq<nat>, k: nat)
    requires IsLR0(G, A) && GotosExact(G, A, M) && s < A.NStates() && j <= |A.shifts[s]|
    requires forall x | SymbolAmong(A, s, 0, j, x) :: 0 <= x < G.ntokens
    requires EdgesTo(G, A, M, s, j, |A.shifts[s]|, edge)
    ensures k in edge <==> NullableFrom(G, A, M, s, k)
  {
    if Numbered(M, k) && M.from[k] == s {
      var x := GotoOf(G, A, M, k);
      hide IsLR0, GotosExact, SymbolAmong, WellFormed, NullableSymbol;
      AmongMeans(G, A, s, x);
      AmongSplit(A, s, j, |A.shifts[s]|, x);
    }
  }

  /** The second inner loop of initialize_F. */
  method NullableEdges(G: Grammar, A: Automaton, M: GotoMap, nullable: array<bool>, stateno: nat, lo: nat) returns (edge: seq<nat>)
    requires IsLR0(G, A) && GotosExact(G, A, M) && IsNullable(G, nullable[..]) && stateno < A.NStates() && lo <= |A.shifts[stateno]|
    requires lo < |A.shifts[stateno]| ==> A.shifts[stateno][lo] < |A.acc| && A.acc[A.shifts[stateno][lo]] >= G.ntokens
    ensures EdgesTo(G, A, M, stateno, lo, |A.shifts[stateno]|, edge)
  {
    hide *;
    Sizes(G, A);
    edge := [];
    NoEdges(G, A, M, stateno, lo);
    var j := lo;
    while j < |A.shifts[stateno]|
      invariant lo <= j <= |A.shifts[stateno]| && EdgesTo(G, A, M, stateno, lo, j, edge)
    {
      ShiftSymbol(G, A, stateno, j);
      var symbol := A.acc[A.shifts[stateno][j]];
      AfterTokens(G, A, stateno, lo, j);
      NullableMeans(G, nullable[..], symbol);
      TargetIntro(A, stateno, symbol, A.shifts[stateno][j]);
      ghost var was := edge;
      if nullable[symbol] {
        var k := MapGoto(G, A, M, stateno, symbol);
        edge := edge + [k];
        OneEdge(G, A, M, stateno, lo, j, was, k);
      } else {
        NoEdge(G, A, M, stateno, lo, j, was);
      }
      j := j + 1;
    }
  }

  lemma TargetIntro(A: Automaton, s: nat, x: nat, t: nat)
    requires IsGoto(A, s, x, t)
    ensures HasTarget(A, s, x)
  {}

  lemma NullableMeans(G: Grammar, nullable: seq<bool>, x: nat)
    requires WellFormed(G) && IsNullable(G, nullable) && x < G.nsyms
    ensures |nullable| == G.nsyms && (nullable[x] <==> NullableSymbol(G, x))
  {}

  lemma AfterTokens(G: Grammar, A: Automaton, s: nat, lo: nat, j: nat)
    requires IsLR0(G, A) && s < A.NStates() && lo <= j < |A.shifts[s]|
    requires A.shifts[s][lo] < |A.acc| && A.acc[A.shifts[s][lo]] >= G.ntokens
    ensures A.shifts[s][j] < |A.acc| && IsNonterminal(G, A.acc[A.shifts[s][j]])
  {
    ShiftSymbol(G, A, s, j);
    if lo < j { ShiftOrder(G, A, s, lo, j); }
  }

  lemma NoEdges(G: Grammar, A: Automaton, M: GotoMap, s: nat, lo: nat)
    requires WellFormed(G)
    ensures EdgesTo(G, A, M, s, lo, lo, [])
  {}

  lemma OneEdge(G: Grammar, A: Automaton, M: GotoMap, s: nat, lo: nat, j: nat, edge: seq<nat>, k: nat)
    requires GotosExact(G, A, M) && s < |A.shifts| && lo <= j < |A.shifts[s]| && A.shifts[s][j] < |A.acc|
    requires EdgesTo(G, A, M, s, lo, j, edge) && InSegment(G, M, A.acc[A.shifts[s][j]], k) && M.from[k] == s
    requires NullableSymbol(G, A.acc[A.shifts[s][j]])
    ensures EdgesTo(G, A, M, s, lo, j + 1, edge + [k])
  {
    var x := A.acc[A.shifts[s][j]];
    assert IsGoto(A, M.from[k], x, M.to[k]);
    assert SymbolOf(A, M, k) == x;
    hide SymbolAmong, NullableSymbol;
    forall m: nat ensures m in edge + [k] <==> EdgeTo(G, A, M, s, lo, j + 1, m) {
      AmongMore(A, s, lo, j, SymbolOf(A, M, m));
      if Numbered(M, m) && M.from[m] == s && SymbolOf(A, M, m) == x {
        NumberUnique(G, A, M, k, m);
      }
    }
  }

  lemma NoEdge(G: Grammar, A: Automaton, M: GotoMap, s: nat, lo: nat, j: nat, edge: seq<nat>)
    requires WellFormed(G) && s < |A.shifts| && lo <= j < |A.shifts[s]| && A.shifts[s][j] < |A.acc|
    requires EdgesTo(G, A, M, s, lo, j, edge) && !NullableSymbol(G, A.acc[A.shifts[s][j]])
    ensures EdgesTo(G, A, M, s, lo, j + 1, edge)
  {
    hide SymbolAmong, NullableSymbol;
    forall m: nat ensures m in edge <==> EdgeTo(G, A, M, s, lo, j + 1, m) {
      AmongMore(A, s, lo, j, SymbolOf(A, M, m));
    }
  }

  /** What initialize_F has found for goto i: the tokens shifted after it, and its reads successors. */
  ghost predicate ReadRow(G: Grammar, A: Automaton, M: GotoMap, i: nat, row: set<int>, edge: seq<nat>)
    requires WellFormed(G)
  {
    Numbered(M, i) && row == ShiftTokens(G, A, M.to[i]) && forall k: nat :: k in edge <==> NullableFrom(G, A, M, M.to[i], k)
  }

  ghost predicate ReadRows(G: Grammar, A: Automaton, M: GotoMap, n: nat, rows: Sets, rd: Rel)
    requires WellFormed(G)
  {
    |rows| == |rd| == Count(M) && n <= |rows| && forall i: nat :: i < n ==> ReadRow(G, A, M, i, rows[i], rd[i])
  }

  lemma MoreRows(G: Grammar, A: Automaton, M: GotoMap, n: nat, rows: Sets, rd: Rel, row: set<int>, edge: seq<nat>)
    requires WellFormed(G) && ReadRows(G, A, M, n, rows, rd) && Numbered(M, n) && row == ShiftTokens(G, A, M.to[n])
    requires n < |rows| == |rd| && forall k: nat :: k in edge <==> NullableFrom(G, A, M, M.to[n], k)
    ensures ReadRows(G, A, M, n + 1, rows[n := row], rd[n := edge])
  {
    hide NullableFrom, WellFormed;
    assert ReadRow(G, A, M, n, row, edge);
  }

  lemma NoRows(G: Grammar, A: Automaton, M: GotoMap, rows: Sets, rd: Rel)
    requires WellFormed(G) && |rows| == |rd| == |M.from|
    ensures ReadRows(G, A, M, 0, rows, rd)
  {}

  /** With the end marker after the goal, the rows are the direct reads and the reads relation. */
  lemma RowsDone(G: Grammar, A: Automaton, M: GotoMap, rows: Sets, rd: Rel, f: Sets)
    requires IsLR0(G, A) && GotosExact(G, A, M) && ReadRows(G, A, M, |rows|, rows, rd)
    requires |rows| > 0 && f == rows[0 := rows[0] + {0}]
    ensures f == DirectReads(G, A, M) && IsReads(G, A, M, rd)
  {
    Sizes(G, A);
    assert 1 <= G.ntokens;
    hide IsLR0, GotosExact, NullableSymbol, HasTarget;
    hide WellFormed;
    var d := DirectReads(G, A, M);
    forall i: nat | i < |f| ensures f[i] == d[i] {
      assert ReadRow(G, A, M, i, rows[i], rd[i]);
      assert forall a :: a in f[i] <==> DirectlyRead(G, A, M, i, a);
    }
    forall i: nat, k: nat ensures Edge(rd, i, k) <==> ReadsEdge(G, A, M, i, k) {
      if i < |rd| {
        assert ReadRow(G, A, M, i, rows[i], rd[i]);
        assert k in rd[i] <==> NullableFrom(G, A, M, M.to[i], k);
      }
    }
    forall i: nat, m: nat | i < |rd| && m < |rd[i]| ensures rd[i][m] < |rd| {
      assert Edge(rd, i, rd[i][m]);
    }
  }

  lemma GotoSize(G: Grammar, A: Automaton, M: GotoMap, i: nat)
    requires IsLR0(G, A) && GotosExact(G, A, M) && i < |M.from|
    ensures Numbered(M, i) && M.to[i] < A.NStates() && M.from[i] < A.NStates()
  {
    var x := GotoOf(G, A, M, i);
  }

  /** initialize_F */
  method InitializeF(G: Grammar, A: Automaton, M: GotoMap, nullable: array<bool>) returns (F: array<set<int>>)
    requires IsLR0(G, A) && GotosExact(G, A, M) && IsNullable(G, nullable[..])
    ensures WellFormed(G) && fresh(F) && F.Length == |M.from| && ReadSets(G, A, M, F[..])
  {
    hide *;
    Sizes(G, A);
    F := new set<int>[|M.from|](_ => {});
    var rd := new seq<nat>[|M.from|](_ => []);
    NoRows(G, A, M, F[..], rd[..]);
    var i := 0;
    while i < |M.from|
      invariant i <= |M.from| && ReadRows(G, A, M, i, F[..], rd[..])
    {
      GotoSize(G, A, M, i);
      ghost var rows, rel := F[..], rd[..];
      var row, edge := ReadsOf(G, A, M, nullable, M.to[i]);
      MoreRows(G, A, M, i, rows, rel, row, edge);
      F[i] := row;
      rd[i] := edge;
      assert F[..] == rows[i := row] && rd[..] == rel[i := edge];
      i := i + 1;
    }
    ghost var u := GoalGoto(G, A, M);
    NumberedSize(M, 0);
    ghost var rows := F[..];
    F[0] := F[0] + {0};
    assert F[..] == rows[0 := rows[0] + {0}];
    RowsDone(G, A, M, rows, rd[..], F[..]);
    ReadsValid(G, A, M, rd[..]);
    RunDigraph(rd[..], F);
    ReadsDone(G, A, M, rd[..], F[..]);
  }

  lemma NumberedSize(M: GotoMap, i: nat)
    requires Numbered(M, i)
    ensures i < |M.from| == |M.to| && i < Count(M)
  {}

  lemma ReadsValid(G: Grammar, A: Automaton, M: GotoMap, rd: Rel)
    requires WellFormed(G) && IsReads(G, A, M, rd)
    ensures ValidRel(rd)
  {}

  lemma ReadsDone(G: Grammar, A: Automaton, M: GotoMap, rd: Rel, f: Sets)
    requires WellFormed(G) && IsReads(G, A, M, rd) && Closed(rd, DirectReads(G, A, M), f)
    ensures ReadSets(G, A, M, f)
  {}

  /** digraph */
  method RunDigraph(R: Rel, F: array<set<int>>)
    requires ValidRel(R) && |R| == F.Length
    modifies F
    ensures Closed(R, old(F[..]), F[..])
  {
    var d := new Digraph(R, F);
    d.Run();
  }

  // ----- Reductions and their numbers -----

  /** Index idx belongs to state s. */
  predicate InRow(la: seq<nat>, s: nat, idx: nat) { s + 1 < |la| && la[s] <= idx < la[s + 1] }

  ghost predicate RowIs(la: seq<nat>, rn: seq<int>, s: nat, rules: seq<int>) {
    s + 1 < |la| && la[s + 1] == la[s] + |rules| <= |rn| && rn[la[s]..la[s + 1]] == rules
  }

  /** lookaheads and LAruleno: the reductions of all states one after the other. */
  ghost predicate LaIndex(A: Automaton, la: seq<nat>, rn: seq<int>) {
    && |la| == |A.reds| + 1 && la[0] == 0 && la[|A.reds|] == |rn|
    && forall s: nat :: s < |A.reds| ==> RowIs(la, rn, s, A.reds[s])
  }

  lemma {:induction false} RowsOrdered(A: Automaton, la: seq<nat>, rn: seq<int>, s: nat, t: nat)
    requires LaIndex(A, la, rn) && s <= t < |la|
    ensures la[s] <= la[t]
    decreases t
  {
    if s < t {
      assert RowIs(la, rn, t - 1, A.reds[t - 1]);
      RowsOrdered(A, la, rn, s, t - 1);
    }
  }

  /** An index belongs to one state. */
  lemma RowUnique(A: Automaton, la: seq<nat>, rn: seq<int>, s: nat, t: nat, idx: nat)
    requires LaIndex(A, la, rn) && InRow(la, s, idx) && InRow(la, t, idx)
    ensures s == t && idx < |rn|
  {
    RowsOrdered(A, la, rn, s + 1, |A.reds|);
    if s < t { RowsOrdered(A, la, rn, s + 1, t); }
    if t < s { RowsOrdered(A, la, rn, t + 1, s); }
  }

  lemma RowRule(A: Automaton, la: seq<nat>, rn: seq<int>, s: nat, idx: nat)
    requires LaIndex(A, la, rn) && InRow(la, s, idx)
    ensures s < |A.reds| && idx < |rn| && idx - la[s] < |A.reds[s]| && rn[idx] == A.reds[s][idx - la[s]]
  {
    assert RowIs(la, rn, s, A.reds[s]);
    assert rn[la[s]..la[s + 1]][idx - la[s]] == rn[idx];
  }

  lemma RowIntro(la: seq<nat>, s: nat, idx: nat)
    requires s + 1 < |la| && la[s] <= idx < la[s + 1]
    ensures InRow(la, s, idx)
  {}

  /** A reduction of a state has exactly one index. */
  lemma RuleIndex(A: Automaton, la: seq<nat>, rn: seq<int>, s: nat, r: int) returns (idx: nat)
    requires LaIndex(A, la, rn) && RedsOrdered(A) && s < |A.reds| && r in A.reds[s]
    ensures InRow(la, s, idx) && idx < |rn| && rn[idx] == r
    ensures forall j: nat :: InRow(la, s, j) && j < |rn| && rn[j] == r ==> j == idx
  {
    assert RowIs(la, rn, s, A.reds[s]);
    var k: nat :| k < |A.reds[s]| && A.reds[s][k] == r;
    idx := la[s] + k;
    assert rn[la[s]..la[s + 1]][k] == rn[idx];
    assert Increasing(A.reds[s]);
    forall j: nat | InRow(la, s, j) && j < |rn| && rn[j] == r ensures j == idx {
      RowRule(A, la, rn, s, j);
    }
  }

  /** The reductions of the first s states. */
  function Flat(reds: seq<seq<int>>, s: nat): seq<int>
    requires s <= |reds|
  {
    if s == 0 then [] else Flat(reds, s - 1) + reds[s - 1]
  }

  lemma {:induction false} FlatPrefix(reds: seq<seq<int>>, s: nat, t: nat)
    requires s <= t <= |reds|
    ensures Flat(reds, s) <= Flat(reds, t)
    decreases t
  {
    if s < t { FlatPrefix(reds, s, t - 1); }
  }

  lemma FlatIndex(A: Automaton, la: seq<nat>, rn: seq<int>)
    requires |la| == |A.reds| + 1 && rn == Flat(A.reds, |A.reds|)
    requires forall s: nat :: s <= |A.reds| ==> la[s] == |Flat(A.reds, s)|
    ensures LaIndex(A, la, rn)
  {
    forall s: nat | s < |A.reds| ensures RowIs(la, rn, s, A.reds[s]) {
      FlatPrefix(A.reds, s + 1, |A.reds|);
      assert la[s + 1] == |Flat(A.reds, s + 1)|;
      assert rn[la[s]..la[s + 1]] == Flat(A.reds, s + 1)[la[s]..];
    }
  }

  /** initialize_LA */
  method InitializeLA(A: Automaton) returns (lookaheads: array<nat>, LAruleno: array<int>)
    ensures LaIndex(A, lookaheads[..], LAruleno[..])
  {
    hide LaIndex;
    var n := |A.reds|;
    lookaheads := new nat[n + 1];
    var k, i: nat := 0, 0;
    while i < n
      invariant i <= n && k == |Flat(A.reds, i)|
      invariant forall s: nat :: s < i ==> lookaheads[s] == |Flat(A.reds, s)|
    {
      lookaheads[i] := k;
      k := k + |A.reds[i]|;
      i := i + 1;
    }
    lookaheads[n] := k;
    LAruleno := new int[k];
    FillRules(A, LAruleno);
    FlatIndex(A, lookaheads[..], LAruleno[..]);
  }

  method FillRules(A: Automaton, LAruleno: array<int>)
    requires LAruleno.Length == |Flat(A.reds, |A.reds|)|
    modifies LAruleno
    ensures LAruleno[..] == Flat(A.reds, |A.reds|)
  {
    var k, i: nat := 0, 0;
    while i < |A.reds|
      invariant i <= |A.reds| && k <= LAruleno.Length && LAruleno[..k] == Flat(A.reds, i)
    {
      FlatPrefix(A.reds, i + 1, |A.reds|);
      var j := 0;
      while j < |A.reds[i]|
        invariant j <= |A.reds[i]| && k <= LAruleno.Length && LAruleno[..k] == Flat(A.reds, i) + A.reds[i][..j]
      {
        LAruleno[k] := A.reds[i][j];
        assert A.reds[i][..j + 1] == A.reds[i][..j] + [A.reds[i][j]];
        assert LAruleno[..k + 1] == LAruleno[..k] + [A.reds[i][j]];
        k := k + 1;
        j := j + 1;
      }
      assert A.reds[i][..j] == A.reds[i];
      i := i + 1;
    }
  }
}
