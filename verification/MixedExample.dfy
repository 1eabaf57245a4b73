/** A grammar in which precedence leaves an action in force that the driver never takes:

      %left x
      S : A x | B x | t x ;  A : t ;  B : t %prec x ;

    After t, with x ahead, B : t wins over the shift of x, but only after A : t, which has no precedence, has been
    counted as in conflict with that shift. */
module MixedExample {
  import opened Grammars
  import opened Items
  import opened Automata
  import opened Digraphs
  import opened Gotos
  import opened LalrSpec
  import opened LalrFollow
  import opened Actions
  import opened Conflicts
  import opened TokenActions
  import opened DriverMachine
  import opened StateTables
  import opened StateOffers
  import opened Packing
  import opened Generator

  const t := 2
  const x := 3

  /** Symbols: $end, error, t, x, $accept, S, A, B; rules 2 to 7 in the order above. */
  function Example(): Grammar {
    Grammar(8, 4, [-1, 5, 0, -2, 6, 3, -3, 7, 3, -4, 2, 3, -5, 2, -6, 2, -7], [0, 0, 4, 5, 5, 5, 6, 7], [0, 0, 1, 4, 7, 10, 13, 15, 17])
  }

  function ExamplePrec(): Prec {
    Prec([0, 0, 0, 1, 0, 0, 0, 0], [TOKEN, TOKEN, TOKEN, LEFT, TOKEN, TOKEN, TOKEN, TOKEN],
         [0, 0, 0, 1, 1, 1, 0, 1], [TOKEN, TOKEN, TOKEN, LEFT, LEFT, LEFT, TOKEN, LEFT])
  }

  lemma ExampleOk()
    ensures WellFormed(Example())
  {
    var G := Example();
    forall r: nat | G.IsRule(r) ensures RuleOk(G, r) {
      if r == 2 { OneRule(2); } else if r == 3 { OneRule(3); } else if r == 4 { OneRule(4); }
      else if r == 5 { OneRule(5); } else if r == 6 { OneRule(6); } else { OneRule(7); }
    }
  }

  lemma OneRule(r: nat)
    requires 2 <= r <= 7
    ensures RuleOk(Example(), r)
  {}

  /** Where the dot stands before a nonterminal, its rules can begin. */
  lemma Brings(A: Automaton, s: nat, i: int, r: nat)
    requires IsLR0(Example(), A) && s < A.NStates() && InState(Example(), A, s, i) && 1 <= i < 17
    requires 2 <= r <= 7 && Example().rlhs[r] == Example().ritem[i]
    ensures InState(Example(), A, s, Example().rrhs[r])
  {
    hide WellFormed, StateOk, BroughtIn;
    ClosureCloses(Example(), Kernel(A, s), i, r);
  }

  /** What state 0 begins with. */
  lemma StartItems(A: Automaton)
    requires IsLR0(Example(), A)
    ensures InState(Example(), A, 0, 4) && InState(Example(), A, 0, 7) && InState(Example(), A, 0, 10)
    ensures InState(Example(), A, 0, 13) && InState(Example(), A, 0, 15)
  {
    hide WellFormed, StateOk, InState;
    KernelInState(Example(), A, 0, 1);
    Brings(A, 0, 1, 3);
    Brings(A, 0, 1, 4);
    Brings(A, 0, 1, 5);
    Brings(A, 0, 4, 6);
    Brings(A, 0, 7, 7);
  }

  lemma TargetOk(A: Automaton, s: nat)
    requires IsLR0(Example(), A) && IsGoto(A, 0, t, s)
    ensures KernelsOk(Example(), A) && s < A.NStates() && GotoOk(Example(), A, 0, s)
  {
    hide WellFormed, InState, GotoOk, Example;
    assert StateOk(Example(), A, 0);
    var k :| 0 <= k < |A.shifts[0]| && A.shifts[0][k] == s;
    assert A.shifts[0][k] == s;
  }

  lemma KernelAfterT(A: Automaton, s: nat, j: int)
    requires KernelsOk(Example(), A) && s < A.NStates() && A.acc[s] == t && GotoOk(Example(), A, 0, s)
    requires InState(Example(), A, 0, 10) && InState(Example(), A, 0, 13) && InState(Example(), A, 0, 15)
    ensures j in A.kernel[s] <==> j in {11, 14, 16}
  {
    OnlyT(j - 1);
    hide WellFormed, InState, Example, KernelsOk, IsItem;
    assert j in A.kernel[s] <==> Shifted(Example(), A, 0, t, j);
  }

  /** The state after t: A : t and B : t are complete, and x is expected. */
  lemma AfterT(A: Automaton) returns (s: nat)
    requires IsLR0(Example(), A)
    ensures IsGoto(A, 0, t, s) && s < A.NStates() && forall j :: j in A.kernel[s] <==> j in {11, 14, 16}
  {
    hide WellFormed, InState, StateOk, GotoOk;
    StartItems(A);
    s := Advance(Example(), A, 0, 10);
    TargetOk(A, s);
    hide IsLR0, Example;
    forall j ensures j in A.kernel[s] <==> j in {11, 14, 16} { KernelAfterT(A, s, j); }
  }

  lemma OnlyT(i: int)
    ensures IsItem(Example(), i) && Example().ritem[i] == t <==> i in {10, 13, 15}
  {}

  /** No item of that state calls for more. */
  lemma ItemsAfterT(A: Automaton, s: nat, i: int)
    requires IsLR0(Example(), A) && s < A.NStates() && forall j :: j in A.kernel[s] <==> j in {11, 14, 16}
    ensures InState(Example(), A, s, i) <==> i in {11, 14, 16}
  {
    hide WellFormed, StateOk;
    forall r: nat ensures !BroughtIn(Example(), Kernel(A, s), r) {
      forall k | k in Kernel(A, s) ensures !Example().IsVar(Example().ritem[k]) {}
    }
  }

  /** Its reductions and its shift. */
  lemma ActionsAfterT(A: Automaton, s: nat) returns (u: nat)
    requires IsLR0(Example(), A) && s < A.NStates() && forall j :: j in A.kernel[s] <==> j in {11, 14, 16}
    ensures forall r :: r in A.reds[s] <==> r in {6, 7}
    ensures IsGoto(A, s, x, u)
  {
    forall i ensures InState(Example(), A, s, i) <==> i in {11, 14, 16} { ItemsAfterT(A, s, i); }
    u := Advance(Example(), A, s, 11);
    hide WellFormed, InState, GotoOk, HasGoto;
    assert StateOk(Example(), A, s);
    forall r ensures r in A.reds[s] <==> r in {6, 7} {
      if r == 6 { assert IsItem(Example(), 14) && Example().ritem[14] == -6; }
      if r == 7 { assert IsItem(Example(), 16) && Example().ritem[16] == -7; }
    }
  }

  lemma BeginsWith(v: nat, i: int)
    requires (v == 6 && i == 4) || (v == 7 && i == 7)
    ensures IsItem(Example(), i) && IsItem(Example(), i + 1) && Example().ritem[i] == v && Example().ritem[i + 1] == x
    ensures IsNonterminal(Example(), v)
  {}

  lemma TwoSteps(A: Automaton, v: nat, i: int) returns (w: nat)
    requires IsLR0(Example(), A) && ((v == 6 && i == 4) || (v == 7 && i == 7))
    ensures IsGoto(A, 0, v, w) && HasTarget(A, w, x)
  {
    StartItems(A);
    BeginsWith(v, i);
    hide WellFormed, InState, StateOk, Example, IsItem, IsGoto;
    w := Advance(Example(), A, 0, i);
    var z := Advance(Example(), A, w, i + 1);
  }

  /** After v is read in state 0, x can be read, since some rule begins with v x at item i. */
  lemma ReadAfter(A: Automaton, M: GotoMap, v: nat, i: int) returns (k: nat)
    requires IsLR0(Example(), A) && GotosExact(Example(), A, M) && ((v == 6 && i == 4) || (v == 7 && i == 7))
    ensures DirectlyRead(Example(), A, M, k, x) && M.from[k] == 0 && SymbolOf(A, M, k) == v
  {
    hide IsLR0, HasTarget, WellFormed;
    var w := TwoSteps(A, v, i);
    BeginsWith(v, i);
    assert Listed(Example(), M, 0, v, w);
    k :| InSegment(Example(), M, v, k) && M.from[k] == 0 && M.to[k] == w;
  }

  lemma ReadIsFollow(A: Automaton, M: GotoMap, f: Sets, k: nat)
    requires WellFormed(Example()) && FollowSets(Example(), A, M, f) && DirectlyRead(Example(), A, M, k, x)
    ensures k < |f| && x in f[k]
  {
    var rd := FollowsAreUp(Example(), A, M, f);
    hide WellFormed, FollowSets, DirectlyRead, ReadsEdge, IncludesEdge;
    assert k < Count(M) by { KnownGoto(A, M, k); }
    assert x in rd[k];
  }

  lemma KnownGoto(A: Automaton, M: GotoMap, k: nat)
    requires DirectlyRead(Example(), A, M, k, x)
    ensures Numbered(M, k)
  {}

  lemma BackFromT(A: Automaton, M: GotoMap, s: nat, r: nat, k: nat)
    requires Numbered(M, k) && M.from[k] == 0 && (r == 6 || r == 7) && SymbolOf(A, M, k) == r && IsGoto(A, 0, t, s)
    ensures Lookback(Example(), A, M, s, r, k)
  {
    hide IsGoto;
    assert Body(Example(), r) == [t];
    var p: seq<nat> := [0, s];
    assert Walk(A, p, [t]);
    assert RuleFrom(Example(), A, M, k, r, p);
  }

  /** So x can follow the nonterminal that rule r reduces to: both rules have the number of their nonterminal. */
  lemma Follows(A: Automaton, M: GotoMap, f: Sets, s: nat, r: nat, i: int)
    requires IsLR0(Example(), A) && GotosExact(Example(), A, M) && WellFormed(Example()) && FollowSets(Example(), A, M, f)
    requires IsGoto(A, 0, t, s) && ((r == 6 && i == 4) || (r == 7 && i == 7))
    ensures InLookahead(Example(), A, M, f, s, r, x)
  {
    hide *;
    var k := ReadAfter(A, M, r, i);
    KnownGoto(A, M, k);
    ReadIsFollow(A, M, f, k);
    BackFromT(A, M, s, r, k);
    LookaheadIntro(A, M, f, s, r, k);
  }

  lemma LookaheadIntro(A: Automaton, M: GotoMap, f: Sets, s: nat, r: nat, k: nat)
    requires k < |f| && Lookback(Example(), A, M, s, r, k) && x in f[k]
    ensures InLookahead(Example(), A, M, f, s, r, x)
  {
    hide Lookback;
  }

  /** Three actions on one token, and what remove_conflicts makes of them. */
  lemma ThreeFlags(g: seq<Action>, u: nat)
    requires |g| == 3 && g[0] == Make(ExamplePrec(), x, u, true)
    requires g[1] == Make(ExamplePrec(), x, 6, false) && g[2] == Make(ExamplePrec(), x, 7, false)
    ensures Flag(g, false, 0) == 2 && Flag(g, false, 1) == 1 && Flag(g, false, 2) == 0
  {
    assert WinnerFrom(g, 2) == 2;
  }

  lemma MemAt(acts: seq<Action>, a: nat, n: nat, sh: bool) returns (i: nat)
    requires Mem(acts, a, n, sh)
    ensures i < |acts| && Is(acts[i], a, n, sh)
  {
    i :| 0 <= i < |acts| && Is(acts[i], a, n, sh);
  }

  /** The actions on x after t are the shift and the two reductions, in this order. */
  lemma GroupAfterT(A: Automaton, M: GotoMap, f: Sets, s: nat, u: nat, acts: seq<Action>, lo: nat, hi: nat)
    requires IsLR0(Example(), A) && ParsedRow(Example(), A, M, f, ExamplePrec(), s, acts) && s < |A.reds|
    requires (forall r :: r in A.reds[s] <==> r in {6, 7}) && IsGoto(A, s, x, u)
    requires InLookahead(Example(), A, M, f, s, 6, x) && InLookahead(Example(), A, M, f, s, 7, x)
    requires lo < hi <= |acts| && forall j :: 0 <= j < |acts| ==> (acts[j].symbol == x <==> lo <= j < hi)
    ensures hi == lo + 3 && acts[lo] == Make(ExamplePrec(), x, u, true)
    ensures acts[lo + 1] == Make(ExamplePrec(), x, 6, false) && acts[lo + 2] == Make(ExamplePrec(), x, 7, false)
  {
    hide IsLR0, InLookahead, Make, Precedes;
    var a := MemAt(acts, x, u, true);
    var b := MemAt(acts, x, 6, false);
    var c := MemAt(acts, x, 7, false);
    ThreeInOrder(acts, a, b, c);
    hide ParsedRow;
    OneOfThree(A, M, f, s, u, acts, a, b, c, lo);
    OneOfThree(A, M, f, s, u, acts, a, b, c, hi - 1);
    OneOfThree(A, M, f, s, u, acts, a, b, c, a + 1);
    OneOfThree(A, M, f, s, u, acts, a, b, c, b + 1);
    EachMade(A, M, f, s, acts, lo);
    EachMade(A, M, f, s, acts, lo + 1);
    EachMade(A, M, f, s, acts, lo + 2);
  }

  lemma EachMade(A: Automaton, M: GotoMap, f: Sets, s: nat, acts: seq<Action>, j: nat)
    requires ParsedRow(Example(), A, M, f, ExamplePrec(), s, acts) && j < |acts|
    ensures acts[j] == Make(ExamplePrec(), acts[j].symbol, acts[j].number, acts[j].shift)
  {
    hide Make, IsAct, Ordered;
  }

  /** An action on x is one of the three. */
  lemma OneOfThree(A: Automaton, M: GotoMap, f: Sets, s: nat, u: nat, acts: seq<Action>, a: nat, b: nat, c: nat, j: nat)
    requires IsLR0(Example(), A) && ParsedRow(Example(), A, M, f, ExamplePrec(), s, acts)
    requires s < |A.reds| && (forall r :: r in A.reds[s] <==> r in {6, 7}) && IsGoto(A, s, x, u)
    requires a < |acts| && b < |acts| && c < |acts| && Is(acts[a], x, u, true) && Is(acts[b], x, 6, false) && Is(acts[c], x, 7, false)
    requires j < |acts| && acts[j].symbol == x
    ensures j == a || j == b || j == c
  {
    hide IsLR0, InLookahead, Make, Precedes, IsGoto;
    assert Is(acts[j], x, acts[j].number, acts[j].shift);
    assert IsAct(Example(), A, M, f, s, x, acts[j].number, acts[j].shift);
    if acts[j].shift { GotoUnique(Example(), A, s, x, u, acts[j].number); }
    SameEntry(acts, j, a);
    SameEntry(acts, j, b);
    SameEntry(acts, j, c);
  }

  lemma ThreeInOrder(acts: seq<Action>, a: nat, b: nat, c: nat)
    requires Ordered(acts) && a < |acts| && b < |acts| && c < |acts| && acts[a].symbol == acts[b].symbol == acts[c].symbol
    requires acts[a].shift && !acts[b].shift && !acts[c].shift && acts[b].number < acts[c].number
    ensures a < b < c
  {
    InOrder(acts, b, a);
    InOrder(acts, c, b);
  }

  /** The grammar has such a state, whatever automaton, Follow sets and flags the generator arrives at. */
  lemma MixedState(val: seq<int>, A: Automaton, M: GotoMap, f: Sets, sts: seq<State>, rows: seq<Row>) returns (s: nat, i: nat)
    requires Generated(Example(), ExamplePrec(), val, A, M, f, sts, rows)
    ensures s < |sts| && i < |sts[s].row| && sts[s].row[i].suppressed == 0 && Is(sts[s].row[i], x, 7, false)
    ensures SomeConflicting(sts[s], x)
  {
    hide Decided, FollowSets, RowsOfStates;
    s := AfterT(A);
    var u := ActionsAfterT(A, s);
    Follows(A, M, f, s, 6, 4);
    Follows(A, M, f, s, 7, 7);
    assert Decided(Example(), A, M, f, ExamplePrec(), s, sts[s]);
    i := FlagsAfterT(A, M, f, s, u, sts[s]);
  }

  lemma FlagsAfterT(A: Automaton, M: GotoMap, f: Sets, s: nat, u: nat, st: State) returns (i: nat)
    requires IsLR0(Example(), A) && Decided(Example(), A, M, f, ExamplePrec(), s, st) && s < |A.reds|
    requires (forall r :: r in A.reds[s] <==> r in {6, 7}) && IsGoto(A, s, x, u)
    requires InLookahead(Example(), A, M, f, s, 6, x) && InLookahead(Example(), A, M, f, s, 7, x)
    ensures i < |st.row| && st.row[i].suppressed == 0 && Is(st.row[i], x, 7, false) && SomeConflicting(st, x)
  {
    hide IsLR0, InLookahead, Make;
    var a := MemAt(st.acts, x, 6, false);
    var lo, hi := FlagOf(st.acts, st.row, st.isFinal, a);
    assert forall j :: 0 <= j < |st.acts| ==> (st.acts[j].symbol == x <==> lo <= j < hi);
    GroupAfterT(A, M, f, s, u, st.acts, lo, hi);
    ThreeFlags(st.acts[lo..hi], u);
    i := lo + 2;
    assert st.row[lo + 1].suppressed == 1 && st.row[lo + 1].symbol == x by { MakeParts(st, lo + 1, 6); }
    MakeParts(st, i, 7);
    assert Conflicting(st.row[lo + 1], x);
  }

  lemma MakeParts(st: State, j: nat, r: nat)
    requires SameButFlags(st.acts, st.row) && j < |st.acts| && st.acts[j] == Make(ExamplePrec(), x, r, false)
    ensures Is(st.row[j], x, r, false)
  {}

  /** There the driver does not take the action in force: with tables of this state it never reduces by B : t. */
  lemma NeverTaken(T: Tables, A: Automaton, M: GotoMap, f: Sets, val: seq<int>, s: nat, st: State, i: nat, inp: seq<int>, c: Config)
    requires StateGiven(T, Example(), A, M, f, ExamplePrec(), val, s, st) && i < |st.row|
    requires st.row[i].suppressed == 0 && Is(st.row[i], x, 7, false) && SomeConflicting(st, x)
    requires Sized(T) && HasState(T, c) && Top(c) == s && x < |val| && Token(inp, c.pos) == val[x]
    ensures Act(T, inp, c) != Reduce(5)
  {
    hide StateGiven, Act, SomeConflicting;
    InForceIsSelected(T, Example(), A, M, f, ExamplePrec(), val, s, st, i, inp, c);
  }
  lemma BuiltGives(T: Tables, A: Automaton, M: GotoMap, f: Sets, val: seq<int>, sts: seq<State>, s: nat)
    requires Built(T, Example(), A, M, f, ExamplePrec(), val, sts) && s < |sts|
    ensures StateGiven(T, Example(), A, M, f, ExamplePrec(), val, s, sts[s]) && Sized(T)
  {
    hide IsLR0, GotosExact, TokenValues, RulesMade, IsGoto, StateGiven;
    assert StateBuilt(T, Example(), A, M, f, ExamplePrec(), val, s, sts[s]);
  }

  lemma NeverInTables(T: Tables, A: Automaton, M: GotoMap, f: Sets, val: seq<int>, sts: seq<State>, s: nat, i: nat)
    requires Built(T, Example(), A, M, f, ExamplePrec(), val, sts) && s < |sts| && i < |sts[s].row|
    requires sts[s].row[i].suppressed == 0 && Is(sts[s].row[i], x, 7, false) && SomeConflicting(sts[s], x)
    ensures Sized(T) && x < |val| && forall inp: seq<int>, c: Config ::
      HasState(T, c) && Top(c) == s && Token(inp, c.pos) == val[x] ==> Act(T, inp, c) != Reduce(5)
  {
    hide IsLR0, GotosExact, RulesMade, IsGoto, StateGiven, Act, SomeConflicting, StateBuilt, Sized, WellFormed;
    BuiltGives(T, A, M, f, val, sts, s);
    forall inp: seq<int>, c: Config | HasState(T, c) && Top(c) == s && Token(inp, c.pos) == val[x]
      ensures Act(T, inp, c) != Reduce(5)
    {
      NeverTaken(T, A, M, f, val, s, sts[s], i, inp, c);
    }
  }

  /** Generator and driver on the grammar: after t, with x ahead, no tables made for it let the driver reduce by B : t,
      although this reduction has won by precedence. */
  method MakeExample(val: seq<int>) returns (ok: bool, T: Tables, ghost sts: seq<State>, ghost s: nat, ghost i: nat)
    requires TokenValues(Example(), val)
    ensures s < |sts| && i < |sts[s].row| && sts[s].row[i].suppressed == 0 && Is(sts[s].row[i], x, 7, false)
    ensures SomeConflicting(sts[s], x) && (Small(Example(), val, |sts|) ==> ok)
    ensures ok ==> Sized(T) && x < |val| && forall inp: seq<int>, c: Config ::
      HasState(T, c) && Top(c) == s && Token(inp, c.pos) == val[x] ==> Act(T, inp, c) != Reduce(5)
  {
    ExampleOk();
    hide *;
    ghost var A, M, f, rows;
    ok, T, A, M, f, sts, rows := MakeTables(Example(), ExamplePrec(), val);
    s, i := MixedState(val, A, M, f, sts, rows);
    if ok { NeverInTables(T, A, M, f, val, sts, s, i); }
  }
}
