/** The parser's action lists (mkpar.c): shifts and reductions of each state, ordered by symbol, shifts before
    reductions, reductions by rule. */
module Actions {
  import opened Grammars
  import opened Automata
  import opened Closures
  import opened Lr0Spec
  import opened Digraphs
  import opened Gotos
  import opened LalrSpec
  import opened LalrReads
  import opened Lalr

  datatype Assoc = TOKEN | LEFT | RIGHT | NONASSOC

  /** Precedence and associativity of symbols and rules; 0, or no entry, is no precedence. */
  datatype Prec = Prec(symPrec: seq<int>, symAssoc: seq<Assoc>, rulePrec: seq<int>, ruleAssoc: seq<Assoc>)

  /** `number` is the target of a shift, the rule of a reduction; `suppressed` is 0 for an action in force, 1 for one
      that takes part in a conflict, 2 for one that lost by precedence. */
  datatype Action = Action(symbol: nat, number: nat, prec: int, shift: bool, assoc: Assoc, suppressed: nat)

  function Make(P: Prec, symbol: nat, number: nat, shift: bool): Action {
    if shift then
      if symbol < |P.symPrec| == |P.symAssoc| then Action(symbol, number, P.symPrec[symbol], true, P.symAssoc[symbol], 0)
      else Action(symbol, number, 0, true, TOKEN, 0)
    else
      if number < |P.rulePrec| == |P.ruleAssoc| then Action(symbol, number, P.rulePrec[number], false, P.ruleAssoc[number], 0)
      else Action(symbol, number, 0, false, TOKEN, 0)
  }

  predicate Precedes(a: Action, b: Action) {
    a.symbol < b.symbol || (a.symbol == b.symbol && !b.shift && (a.shift || a.number < b.number))
  }

  ghost predicate Ordered(acts: seq<Action>) { forall i, j :: 0 <= i < j < |acts| ==> Precedes(acts[i], acts[j]) }

  ghost predicate Made(P: Prec, acts: seq<Action>) {
    forall i :: 0 <= i < |acts| ==> acts[i] == Make(P, acts[i].symbol, acts[i].number, acts[i].shift)
  }

  predicate Is(a: Action, x: nat, n: nat, sh: bool) { a.symbol == x && a.number == n && a.shift == sh }

  ghost predicate Mem(acts: seq<Action>, x: nat, n: nat, sh: bool) {
    exists i :: 0 <= i < |acts| && Is(acts[i], x, n, sh)
  }

  /** What the automaton with its lookaheads can do in state s with token x ahead. */
  ghost predicate IsAct(G: Grammar, A: Automaton, M: GotoMap, f: Sets, s: nat, x: nat, n: nat, sh: bool) {
    && x < G.ntokens && s < |A.reds|
    && if sh then IsGoto(A, s, x, n) else n in A.reds[s] && InLookahead(G, A, M, f, s, n, x)
  }

  /** The list of a state holds exactly its actions, in order. */
  ghost predicate ParsedRow(G: Grammar, A: Automaton, M: GotoMap, f: Sets, P: Prec, s: nat, acts: seq<Action>) {
    && Ordered(acts) && Made(P, acts)
    && forall x: nat, n: nat, sh: bool :: Mem(acts, x, n, sh) <==> IsAct(G, A, M, f, s, x, n, sh)
  }

  // ----- Shifts -----

  ghost predicate IsShift(G: Grammar, A: Automaton, s: nat, i: nat, x: nat, n: nat) {
    s < |A.shifts| && x < G.ntokens
    && exists k: nat :: i <= k < |A.shifts[s]| && A.shifts[s][k] == n && n < |A.acc| && A.acc[n] == x
  }

  ghost predicate ShiftsFrom(G: Grammar, A: Automaton, P: Prec, s: nat, i: nat, acts: seq<Action>) {
    && Ordered(acts) && Made(P, acts)
    && forall x: nat, n: nat, sh: bool :: Mem(acts, x, n, sh) <==> sh && IsShift(G, A, s, i, x, n)
  }

  lemma PrependShift(G: Grammar, A: Automaton, P: Prec, s: nat, i: nat, acts: seq<Action>, a: Action)
    requires IsLR0(G, A) && s < A.NStates() && i < |A.shifts[s]| && ShiftsFrom(G, A, P, s, i + 1, acts)
    requires A.shifts[s][i] < |A.acc| && A.acc[A.shifts[s][i]] < G.ntokens && a == Make(P, A.acc[A.shifts[s][i]], A.shifts[s][i], true)
    ensures ShiftsFrom(G, A, P, s, i, [a] + acts)
  {
    var t := A.shifts[s][i];
    var acts' := [a] + acts;
    forall j | 0 <= j < |acts| ensures Precedes(a, acts[j]) {
      assert Mem(acts, acts[j].symbol, acts[j].number, acts[j].shift) by {
        assert Is(acts[j], acts[j].symbol, acts[j].number, acts[j].shift);
      }
      var k: nat :| i + 1 <= k < |A.shifts[s]| && A.shifts[s][k] == acts[j].number && A.acc[acts[j].number] == acts[j].symbol;
      ShiftOrder(G, A, s, i, k);
    }
    hide IsLR0, Precedes, Make;
    forall x: nat, n: nat, sh: bool ensures Mem(acts', x, n, sh) <==> sh && IsShift(G, A, s, i, x, n) {
      MemPrepend(a, acts, x, n, sh);
      if x == A.acc[t] && n == t { assert i <= i < |A.shifts[s]|; }
    }
  }

  lemma MemPrepend(a: Action, acts: seq<Action>, x: nat, n: nat, sh: bool)
    ensures Mem([a] + acts, x, n, sh) <==> Is(a, x, n, sh) || Mem(acts, x, n, sh)
  {
    if Is(a, x, n, sh) { assert Is(([a] + acts)[0], x, n, sh); }
    if Mem(acts, x, n, sh) {
      var i :| 0 <= i < |acts| && Is(acts[i], x, n, sh);
      assert Is(([a] + acts)[i + 1], x, n, sh);
    }
  }

  lemma SkipShift(G: Grammar, A: Automaton, P: Prec, s: nat, i: nat, acts: seq<Action>)
    requires s < |A.shifts| && i < |A.shifts[s]| && ShiftsFrom(G, A, P, s, i + 1, acts)
    requires A.shifts[s][i] < |A.acc| && A.acc[A.shifts[s][i]] >= G.ntokens
    ensures ShiftsFrom(G, A, P, s, i, acts)
  {
    hide Mem, Made, Ordered;
    forall x: nat, n: nat ensures IsShift(G, A, s, i, x, n) <==> IsShift(G, A, s, i + 1, x, n) {}
  }

  /** get_shifts */
  method GetShifts(G: Grammar, A: Automaton, P: Prec, stateno: nat) returns (actions: seq<Action>)
    requires IsLR0(G, A) && stateno < A.NStates()
    ensures ShiftsFrom(G, A, P, stateno, 0, actions)
  {
    hide *;
    Sizes(G, A);
    actions := [];
    NoShifts(G, A, P, stateno);
    var i: nat := |A.shifts[stateno]|;
    while i > 0
      invariant i <= |A.shifts[stateno]| && ShiftsFrom(G, A, P, stateno, i, actions)
    {
      i := i - 1;
      ShiftSymbol(G, A, stateno, i);
      var k := A.shifts[stateno][i];
      var symbol := A.acc[k];
      if symbol < G.ntokens {
        PrependShift(G, A, P, stateno, i, actions, Make(P, symbol, k, true));
        actions := [Make(P, symbol, k, true)] + actions;
      } else {
        SkipShift(G, A, P, stateno, i, actions);
      }
    }
  }

  lemma NoShifts(G: Grammar, A: Automaton, P: Prec, s: nat)
    requires s < |A.shifts|
    ensures ShiftsFrom(G, A, P, s, |A.shifts[s]|, [])
  {}

  // ----- Reductions -----

  /** Where a reduction goes: behind all actions that precede it. */
  ghost predicate Place(acts: seq<Action>, a: Action, pos: nat) {
    && pos <= |acts| && (forall i :: 0 <= i < pos ==> Precedes(acts[i], a))
    && (pos < |acts| ==> Precedes(a, acts[pos]))
  }

  lemma Placed(acts: seq<Action>, a: Action, pos: nat, P: Prec)
    requires Ordered(acts) && Place(acts, a, pos) && Made(P, acts) && a == Make(P, a.symbol, a.number, a.shift)
    ensures Ordered(acts[..pos] + [a] + acts[pos..]) && Made(P, acts[..pos] + [a] + acts[pos..])
    ensures forall x: nat, n: nat, sh: bool :: Mem(acts[..pos] + [a] + acts[pos..], x, n, sh) <==> Mem(acts, x, n, sh) || Is(a, x, n, sh)
  {
    var r := acts[..pos] + [a] + acts[pos..];
    forall i: nat, j: nat | i < j < |r| ensures Precedes(r[i], r[j]) {
      if i == pos && j > pos + 1 {
        assert Precedes(acts[pos], acts[j - 1]);
      }
    }
    hide Precedes, Make;
    forall x: nat, n: nat, sh: bool ensures Mem(r, x, n, sh) <==> Mem(acts, x, n, sh) || Is(a, x, n, sh) {
      MemInsert(acts, a, pos, x, n, sh);
    }
  }

  lemma MemInsert(acts: seq<Action>, a: Action, pos: nat, x: nat, n: nat, sh: bool)
    requires pos <= |acts|
    ensures Mem(acts[..pos] + [a] + acts[pos..], x, n, sh) <==> Mem(acts, x, n, sh) || Is(a, x, n, sh)
  {
    var r := acts[..pos] + [a] + acts[pos..];
    if Is(a, x, n, sh) { assert Is(r[pos], x, n, sh); }
    if Mem(acts, x, n, sh) {
      var i :| 0 <= i < |acts| && Is(acts[i], x, n, sh);
      assert r[if i < pos then i else i + 1] == acts[i];
    }
    if Mem(r, x, n, sh) {
      var i :| 0 <= i < |r| && Is(r[i], x, n, sh);
      if i != pos { assert r[i] == acts[if i < pos then i else i - 1]; }
    }
  }

  /** add_reduce */
  method AddReduce(P: Prec, acts: seq<Action>, ruleno: nat, symbol: nat) returns (actions: seq<Action>)
    requires Ordered(acts) && Made(P, acts) && !Mem(acts, symbol, ruleno, false)
    ensures Ordered(actions) && Made(P, actions)
    ensures forall x: nat, n: nat, sh: bool :: Mem(actions, x, n, sh) <==> Mem(acts, x, n, sh) || (x == symbol && n == ruleno && !sh)
  {
    var a := Make(P, symbol, ruleno, false);
    hide Made, Mem, Make;
    MakeIs(P, symbol, ruleno, false);
    var next := 0;
    while next < |acts| && acts[next].symbol < symbol
      invariant next <= |acts| && forall i :: 0 <= i < next ==> Precedes(acts[i], a)
    {
      next := next + 1;
    }
    while next < |acts| && acts[next].symbol == symbol && acts[next].shift
      invariant next <= |acts| && (forall i :: 0 <= i < next ==> Precedes(acts[i], a))
      invariant next < |acts| ==> acts[next].symbol >= symbol
    {
      assert next + 1 < |acts| ==> Precedes(acts[next], acts[next + 1]);
      next := next + 1;
    }
    while next < |acts| && acts[next].symbol == symbol && !acts[next].shift && acts[next].number < ruleno
      invariant next <= |acts| && (forall i :: 0 <= i < next ==> Precedes(acts[i], a))
      invariant next < |acts| ==> acts[next].symbol >= symbol && (acts[next].symbol == symbol ==> !acts[next].shift)
    {
      assert next + 1 < |acts| ==> Precedes(acts[next], acts[next + 1]);
      next := next + 1;
    }
    if next < |acts| { NotThere(acts, symbol, ruleno, next); }
    Placed(acts, a, next, P);
    actions := acts[..next] + [a] + acts[next..];
  }

  lemma MakeIs(P: Prec, x: nat, n: nat, sh: bool)
    ensures var a := Make(P, x, n, sh); a.symbol == x && a.number == n && a.shift == sh && a == Make(P, a.symbol, a.number, a.shift)
  {}

  lemma NotThere(acts: seq<Action>, x: nat, n: nat, i: nat)
    requires !Mem(acts, x, n, false) && i < |acts|
    ensures !(acts[i].symbol == x && acts[i].number == n && !acts[i].shift)
  {
    assert Is(acts[i], x, n, false) ==> Mem(acts, x, n, false);
  }

  /** Reductions added so far: those of the indices before i, and of index i for the tokens from j on. */
  ghost predicate Reduced(G: Grammar, la: seq<nat>, rn: seq<int>, LA: Sets, s: nat, i: nat, j: nat, x: nat, n: nat) {
    && x < G.ntokens && |LA| == |rn|
    && exists idx: nat :: InRow(la, s, idx) && idx < |rn| && rn[idx] == n && x in LA[idx] && (idx < i || (idx == i && j <= x))
  }

  ghost predicate Adding(G: Grammar, A: Automaton, P: Prec, la: seq<nat>, rn: seq<int>, LA: Sets, s: nat, i: nat, j: nat, acts: seq<Action>) {
    && Ordered(acts) && Made(P, acts)
    && forall x: nat, n: nat, sh: bool :: Mem(acts, x, n, sh) <==>
         if sh then IsShift(G, A, s, 0, x, n) else Reduced(G, la, rn, LA, s, i, j, x, n)
  }

  /** The reduction of index i on token j is new. */
  lemma NewReduction(G: Grammar, A: Automaton, P: Prec, la: seq<nat>, rn: seq<int>, LA: Sets, s: nat, i: nat, j: nat, acts: seq<Action>)
    requires LaIndex(A, la, rn) && RedsOrdered(A) && InRow(la, s, i) && s < |A.reds| && i < |rn| && rn[i] >= 0
    requires Adding(G, A, P, la, rn, LA, s, i, j + 1, acts)
    ensures !Mem(acts, j, rn[i], false)
  {
    assert Increasing(A.reds[s]);
    hide Ordered, Made;
    if Mem(acts, j, rn[i], false) {
      var n: nat := rn[i];
      assert Reduced(G, la, rn, LA, s, i, j + 1, j, n);
      var idx: nat :| InRow(la, s, idx) && idx < |rn| && rn[idx] == n && (idx < i || (idx == i && j + 1 <= j));
      RowRule(A, la, rn, s, i);
      RowRule(A, la, rn, s, idx);
    }
  }

  lemma ReducedStep(G: Grammar, la: seq<nat>, rn: seq<int>, LA: Sets, s: nat, i: nat, j: nat, x: nat, n: nat)
    requires InRow(la, s, i) && i < |rn| == |LA| && j < G.ntokens
    ensures Reduced(G, la, rn, LA, s, i, j, x, n) <==> Reduced(G, la, rn, LA, s, i, j + 1, x, n) || (x == j && rn[i] == n && j in LA[i])
  {
    if x == j && rn[i] == n && j in LA[i] { assert InRow(la, s, i) && i < |rn|; }
  }

  lemma ReducedNext(G: Grammar, la: seq<nat>, rn: seq<int>, LA: Sets, s: nat, i: nat, x: nat, n: nat)
    ensures Reduced(G, la, rn, LA, s, i, 0, x, n) <==> Reduced(G, la, rn, LA, s, i + 1, G.ntokens, x, n)
  {}

  lemma AddingStep(G: Grammar, A: Automaton, P: Prec, la: seq<nat>, rn: seq<int>, LA: Sets, s: nat, i: nat, j: nat, acts: seq<Action>, acts': seq<Action>)
    requires InRow(la, s, i) && i < |rn| == |LA| && j < G.ntokens && rn[i] >= 0 && Adding(G, A, P, la, rn, LA, s, i, j + 1, acts)
    requires Ordered(acts') && Made(P, acts')
    requires j in LA[i] ==> forall x: nat, n: nat, sh: bool :: Mem(acts', x, n, sh) <==> Mem(acts, x, n, sh) || (x == j && n == rn[i] && !sh)
    requires j !in LA[i] ==> acts' == acts
    ensures Adding(G, A, P, la, rn, LA, s, i, j, acts')
  {
    hide Ordered, Made, Mem, Reduced, IsShift;
    forall x: nat, n: nat, sh: bool
      ensures Mem(acts', x, n, sh) <==> if sh then IsShift(G, A, s, 0, x, n) else Reduced(G, la, rn, LA, s, i, j, x, n)
    {
      ReducedStep(G, la, rn, LA, s, i, j, x, n);
    }
  }

  lemma AddingNext(G: Grammar, A: Automaton, P: Prec, la: seq<nat>, rn: seq<int>, LA: Sets, s: nat, i: nat, acts: seq<Action>)
    requires Adding(G, A, P, la, rn, LA, s, i, 0, acts)
    ensures Adding(G, A, P, la, rn, LA, s, i + 1, G.ntokens, acts)
  {
    hide Ordered, Made, Mem, Reduced, IsShift;
    forall x: nat, n: nat ensures Reduced(G, la, rn, LA, s, i, 0, x, n) <==> Reduced(G, la, rn, LA, s, i + 1, G.ntokens, x, n) {
      ReducedNext(G, la, rn, LA, s, i, x, n);
    }
  }

  lemma AddingStart(G: Grammar, A: Automaton, P: Prec, la: seq<nat>, rn: seq<int>, LA: Sets, s: nat, acts: seq<Action>)
    requires s + 1 < |la| && ShiftsFrom(G, A, P, s, 0, acts)
    ensures Adding(G, A, P, la, rn, LA, s, la[s], G.ntokens, acts)
  {
    hide Ordered, Made, Mem, IsShift;
    forall x: nat, n: nat ensures !Reduced(G, la, rn, LA, s, la[s], G.ntokens, x, n) {}
  }

  /** add_reductions */
  method AddReductions(G: Grammar, A: Automaton, P: Prec, lookaheads: array<nat>, LAruleno: array<int>, LA: array<set<int>>, stateno: nat, acts: seq<Action>)
    returns (actions: seq<Action>)
    requires LaIndex(A, lookaheads[..], LAruleno[..]) && RedsOrdered(A) && stateno < |A.reds| && LA.Length == LAruleno.Length
    requires forall i :: 0 <= i < LAruleno.Length ==> LAruleno[i] >= 0
    requires ShiftsFrom(G, A, P, stateno, 0, acts)
    ensures stateno + 1 < lookaheads.Length && Adding(G, A, P, lookaheads[..], LAruleno[..], LA[..], stateno, lookaheads[stateno + 1], G.ntokens, actions)
  {
    hide *;
    ghost var la, rn, sets := lookaheads[..], LAruleno[..], LA[..];
    RowBounds(A, la, rn, stateno);
    actions := acts;
    var i, n := lookaheads[stateno], lookaheads[stateno + 1];
    AddingStart(G, A, P, la, rn, sets, stateno, actions);
    while i < n
      invariant lookaheads[stateno] <= i <= n && Adding(G, A, P, la, rn, sets, stateno, i, G.ntokens, actions)
    {
      RowIntro(la, stateno, i);
      var ruleno := LAruleno[i];
      assert rn[i] == ruleno && sets[i] == LA[i];
      var j: nat := G.ntokens;
      while j > 0
        invariant j <= G.ntokens && Adding(G, A, P, la, rn, sets, stateno, i, j, actions)
      {
        j := j - 1;
        ghost var was := actions;
        AddingParts(G, A, P, la, rn, sets, stateno, i, j + 1, was);
        if j in LA[i] {
          NewReduction(G, A, P, la, rn, sets, stateno, i, j, was);
          actions := AddReduce(P, actions, ruleno, j);
        }
        AddingStep(G, A, P, la, rn, sets, stateno, i, j, was, actions);
      }
      AddingNext(G, A, P, la, rn, sets, stateno, i, actions);
      i := i + 1;
    }
  }

  lemma AddingParts(G: Grammar, A: Automaton, P: Prec, la: seq<nat>, rn: seq<int>, LA: Sets, s: nat, i: nat, j: nat, acts: seq<Action>)
    requires Adding(G, A, P, la, rn, LA, s, i, j, acts)
    ensures Ordered(acts) && Made(P, acts)
  {}

  lemma RowBounds(A: Automaton, la: seq<nat>, rn: seq<int>, s: nat)
    requires LaIndex(A, la, rn) && s < |A.reds|
    ensures s + 1 < |la| && la[s] <= la[s + 1] <= |rn|
  {
    assert RowIs(la, rn, s, A.reds[s]);
  }

  lemma AddedIsParsed(G: Grammar, A: Automaton, M: GotoMap, f: Sets, P: Prec, la: seq<nat>, rn: seq<int>, LA: Sets, s: nat, acts: seq<Action>)
    requires IsLR0(G, A) && RedsOrdered(A) && LaIndex(A, la, rn) && LaExact(G, A, M, f, la, rn, LA) && s < |A.reds| && s + 1 < |la|
    requires Adding(G, A, P, la, rn, LA, s, la[s + 1], G.ntokens, acts)
    ensures ParsedRow(G, A, M, f, P, s, acts)
  {
    hide IsLR0, Ordered, Made, Mem;
    forall x: nat, n: nat, sh: bool ensures Mem(acts, x, n, sh) <==> IsAct(G, A, M, f, s, x, n, sh) {
      if sh {
        ShiftIsAct(G, A, s, x, n);
      } else {
        ReducedIsAct(G, A, M, f, la, rn, LA, s, x, n);
      }
    }
  }

  lemma ShiftIsAct(G: Grammar, A: Automaton, s: nat, x: nat, n: nat)
    requires IsLR0(G, A) && s < |A.reds|
    ensures IsShift(G, A, s, 0, x, n) <==> x < G.ntokens && IsGoto(A, s, x, n)
  {
    Sizes(G, A);
    hide IsLR0;
    if IsGoto(A, s, x, n) {
      var k: nat :| k < |A.shifts[s]| && A.shifts[s][k] == n;
      assert 0 <= k;
    }
    if IsShift(G, A, s, 0, x, n) {
      var k: nat :| 0 <= k < |A.shifts[s]| && A.shifts[s][k] == n && A.acc[n] == x;
      assert A.shifts[s][k] in A.shifts[s];
    }
  }

  lemma ReducedIsAct(G: Grammar, A: Automaton, M: GotoMap, f: Sets, la: seq<nat>, rn: seq<int>, LA: Sets, s: nat, x: nat, n: nat)
    requires LaIndex(A, la, rn) && RedsOrdered(A) && LaExact(G, A, M, f, la, rn, LA) && s < |A.reds| && s + 1 < |la|
    ensures Reduced(G, la, rn, LA, s, la[s + 1], G.ntokens, x, n) <==> x < G.ntokens && n in A.reds[s] && InLookahead(G, A, M, f, s, n, x)
  {
    hide InLookahead;
    if Reduced(G, la, rn, LA, s, la[s + 1], G.ntokens, x, n) {
      var idx: nat :| InRow(la, s, idx) && idx < |rn| && rn[idx] == n && x in LA[idx];
      assert LaSet(G, A, M, f, s, rn[idx], LA[idx]);
      RowRule(A, la, rn, s, idx);
    }
    if x < G.ntokens && n in A.reds[s] && InLookahead(G, A, M, f, s, n, x) {
      var idx := RuleIndex(A, la, rn, s, n);
      assert LaSet(G, A, M, f, s, rn[idx], LA[idx]);
    }
  }

  /** parse_actions */
  method ParseActions(G: Grammar, A: Automaton, ghost M: GotoMap, ghost f: Sets, P: Prec, lookaheads: array<nat>, LAruleno: array<int>, LA: array<set<int>>, stateno: nat)
    returns (actions: seq<Action>)
    requires IsLR0(G, A) && RedsOrdered(A) && LaIndex(A, lookaheads[..], LAruleno[..]) && stateno < A.NStates()
    requires LaExact(G, A, M, f, lookaheads[..], LAruleno[..], LA[..])
    ensures ParsedRow(G, A, M, f, P, stateno, actions)
  {
    hide *;
    Sizes(G, A);
    RulesPositive(G, A, M, f, lookaheads[..], LAruleno[..], LA[..]);
    actions := GetShifts(G, A, P, stateno);
    actions := AddReductions(G, A, P, lookaheads, LAruleno, LA, stateno, actions);
    AddedIsParsed(G, A, M, f, P, lookaheads[..], LAruleno[..], LA[..], stateno, actions);
  }

  lemma RulesPositive(G: Grammar, A: Automaton, M: GotoMap, f: Sets, la: seq<nat>, rn: seq<int>, LA: Sets)
    requires LaIndex(A, la, rn) && LaExact(G, A, M, f, la, rn, LA)
    ensures |LA| == |rn| && forall i :: 0 <= i < |rn| ==> rn[i] >= 0
  {
    forall i: nat | i < |rn| ensures rn[i] >= 0 {
      var s := RowOf(A, la, rn, i, |A.reds|);
      assert LaSet(G, A, M, f, s, rn[i], LA[i]);
    }
  }
}
