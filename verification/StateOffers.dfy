/** What the tables leave out: nothing, exactly if precedence has dropped no action. */
module StateOffers {
  import opened Grammars
  import opened Automata
  import opened Digraphs
  import opened Gotos
  import opened LalrSpec
  import opened LalrFollow
  import opened Actions
  import opened Conflicts
  import opened ConflictTable
  import opened TokenActions
  import opened DriverMachine
  import opened DriverComplete
  import opened StateTables

  /** The driver can take this action in state s, with its token ahead. */
  ghost predicate Offered(T: Tables, val: seq<int>, s: nat, a: Action) {
    a.symbol < |val| && if a.shift then OffersShift(T, s, val[a.symbol], a.number) else OffersReduce(T, s, val[a.symbol], a.number - 2)
  }

  // ----- What is offered has not been dropped -----

  /** Some action like this has been kept. */
  ghost predicate Kept(st: State, x: nat, n: nat, sh: bool) {
    exists m: nat :: m < |st.row| && Is(st.row[m], x, n, sh) && st.row[m].suppressed <= 1
  }

  lemma OnesKept(st: State, x: nat, k: nat)
    requires k < |Ones(st.row, st.d, x, |st.row|)|
    ensures var a := Ones(st.row, st.d, x, |st.row|)[k]; a.symbol == x && Kept(st, x, a.number, a.shift)
  {
    var a := Ones(st.row, st.d, x, |st.row|)[k];
    OnesAre(st.row, st.d, x, |st.row|);
    assert a in Ones(st.row, st.d, x, |st.row|);
    var i: nat :| i < |st.row| && st.row[i] == a;
    assert Is(st.row[i], x, a.number, a.shift);
  }

  lemma LiveKept(st: State, x: nat, sh: bool, t: int, n: nat)
    requires IsLive(st, x, sh, t) && t == (if sh then n else n - 2)
    ensures Kept(st, x, n, sh)
  {
    var i: nat :| i < |st.row| && Live(st.row[i], st.d, x, sh) && t == Value(st.row[i]);
    assert Is(st.row[i], x, n, sh);
  }

  lemma OfferedShiftKept(T: Tables, G: Grammar, A: Automaton, M: GotoMap, f: Sets, P: Prec, val: seq<int>, s: nat, st: State, x: nat, t: nat)
    requires StateGiven(T, G, A, M, f, P, val, s, st) && x < G.ntokens && x < |val| && OffersShift(T, s, val[x], t)
    ensures Kept(st, x, t, true)
  {
    GivenParts(T, G, A, M, f, P, val, s, st);
    DefaultSound(T, G, A, M, f, P, val, s, st);
    DefaultIs(G, st);
    ConflictFound(T, G.ntokens, val, s, st, x);
    ShiftFound(T, G.ntokens, val, s, st, x);
    hide StateGiven, Decided, IsLR0, GotosExact, InTables, Lookup, Kept, Proper, SomeConflicting, Entry, EntryAt, DefaultOk;
    match Lookup(T, T.cindex[s], val[x])
    case Some(e) =>
      var ones := Ones(st.row, st.d, x, |st.row|);
      ConflictList(T, G.ntokens, val, s, st, x);
      Alternatives(T, e, ones);
      ListKinds(ones);
      hide Ones;
      OnesKept(st, x, 0);
    case None => LiveKept(st, x, true, t, t);
  }

  lemma OfferedReductionKept(T: Tables, G: Grammar, A: Automaton, M: GotoMap, f: Sets, P: Prec, val: seq<int>, s: nat, st: State, x: nat, r: nat)
    requires StateGiven(T, G, A, M, f, P, val, s, st) && x < G.ntokens && x < |val| && st.d == 0 && r > 2 && OffersReduce(T, s, val[x], r - 2)
    ensures Kept(st, x, r, false)
  {
    GivenParts(T, G, A, M, f, P, val, s, st);
    ConflictFound(T, G.ntokens, val, s, st, x);
    ReductionFound(T, G.ntokens, val, s, st, x);
    hide StateGiven, Decided, IsLR0, GotosExact, InTables, Lookup, Kept, Proper, SomeConflicting, Entry, EntryAt, DefaultOk;
    match Lookup(T, T.cindex[s], val[x])
    case Some(e) =>
      ConflictList(T, G.ntokens, val, s, st, x);
      var q :| Alternative(T, e, q) && q != e && T.ctable[q] == r - 2;
      ListedReduction(T, st, x, e, q, r);
    case None => LiveKept(st, x, false, r - 2, r);
  }

  lemma ListedReduction(T: Tables, st: State, x: nat, e: int, q: int, r: nat)
    requires ListProper(Ones(st.row, st.d, x, |st.row|)) && EntryAt(T.ctable, e, Entry(Ones(st.row, st.d, x, |st.row|)))
    requires Alternative(T, e, q) && q != e && T.ctable[q] == r - 2
    ensures Kept(st, x, r, false)
  {
    var ones := Ones(st.row, st.d, x, |st.row|);
    Alternatives(T, e, ones);
    hide Ones, Alternative, ListProper, Entry, EntryAt, Kept;
    var k: nat :| k < |ones| && q == e + Pos(ones, k);
    assert Elem(T, e, ones, k);
    ElementKind(ones, k);
    OnesKept(st, x, k);
  }

  /** Each action of a list is an alternative, the shift the first one. */
  lemma ListOffers(T: Tables, e: int, ones: seq<Action>, k: nat)
    requires ListProper(ones) && EntryAt(T.ctable, e, Entry(ones)) && k < |ones|
    ensures 0 <= e < |T.ctable| && (ones[k].shift ==> T.ctable[e] == ones[k].number)
    ensures !ones[k].shift ==> exists q :: Alternative(T, e, q) && q != e && T.ctable[q] == ones[k].number - 2
  {
    Alternatives(T, e, ones);
    ListKinds(ones);
    hide Alternative, ListProper, Entry, EntryAt;
    assert Elem(T, e, ones, k);
    assert Alternative(T, e, e + Pos(ones, k));
  }

  lemma ElementKind(ones: seq<Action>, k: nat)
    requires ListProper(ones) && k < |ones| && Pos(ones, k) != 0
    ensures !ones[k].shift
  {}

  // ----- What has been kept is offered -----

  lemma AloneIsOffered(T: Tables, G: Grammar, A: Automaton, M: GotoMap, f: Sets, P: Prec, val: seq<int>, s: nat, st: State, i: nat)
    requires StateGiven(T, G, A, M, f, P, val, s, st) && i < |st.row| && st.d == 0 && st.row[i].suppressed == 0
    requires forall j :: 0 <= j < |st.row| && j != i ==> st.row[j].symbol != st.row[i].symbol
    ensures Offered(T, val, s, st.row[i])
  {
    GivenParts(T, G, A, M, f, P, val, s, st);
    var x := st.row[i].symbol;
    TokenBound(st.row, G.ntokens, i);
    ConflictFound(T, G.ntokens, val, s, st, x);
    ShiftFound(T, G.ntokens, val, s, st, x);
    ReductionFound(T, G.ntokens, val, s, st, x);
    assert Live(st.row[i], st.d, x, st.row[i].shift);
    assert NoConflict(st.row, |st.row|, x);
    assert !SomeConflicting(st, x);
    OnlyLive(st, i, true);
    OnlyLive(st, i, false);
    hide StateGiven, Decided, IsLR0, GotosExact, InTables, Lookup, Live, EntryAt, Ones;
  }

  lemma TokenBound(row: seq<Action>, nt: nat, i: nat)
    requires Proper(row, nt) && i < |row|
    ensures row[i].symbol < nt && row[i].number > (if row[i].shift then 0 else 2)
  {}

  lemma OnlyLive(st: State, i: nat, sh: bool)
    requires i < |st.row| && forall j :: 0 <= j < |st.row| && j != i ==> st.row[j].symbol != st.row[i].symbol
    ensures forall t :: IsLive(st, st.row[i].symbol, sh, t) ==> sh == st.row[i].shift && t == Value(st.row[i])
  {}

  lemma ConflictIsOffered(T: Tables, G: Grammar, A: Automaton, M: GotoMap, f: Sets, P: Prec, val: seq<int>, s: nat, st: State, i: nat)
    requires StateGiven(T, G, A, M, f, P, val, s, st) && i < |st.row| && st.d == 0 && st.row[i].suppressed == 1
    ensures Offered(T, val, s, st.row[i])
  {
    GivenParts(T, G, A, M, f, P, val, s, st);
    var a := st.row[i];
    var x := a.symbol;
    TokenBound(st.row, G.ntokens, i);
    ConflictFound(T, G.ntokens, val, s, st, x);
    assert Conflicting(st.row[i], x) && SomeConflicting(st, x);
    ConflictList(T, G.ntokens, val, s, st, x);
    var ones := Ones(st.row, st.d, x, |st.row|);
    OnesAre(st.row, st.d, x, |st.row|);
    assert InOnes(st.row, st.d, x, |st.row|, a);
    var k: nat :| k < |ones| && ones[k] == a;
    assert Lookup(T, T.cindex[s], val[x]).Some?;
    hide StateGiven, Decided, IsLR0, GotosExact, InTables, Lookup, Proper, Entry, EntryAt, Ones, InOnes, Alternative, ListProper;
    ListOffers(T, Lookup(T, T.cindex[s], val[x]).value, ones, k);
  }

  lemma KeptIsOffered(T: Tables, G: Grammar, A: Automaton, M: GotoMap, f: Sets, P: Prec, val: seq<int>, s: nat, st: State, i: nat)
    requires StateGiven(T, G, A, M, f, P, val, s, st) && i < |st.row| && forall k :: 0 <= k < |st.row| ==> st.row[k].suppressed != 2
    ensures Offered(T, val, s, st.row[i])
  {
    GivenParts(T, G, A, M, f, P, val, s, st);
    TokenBound(st.row, G.ntokens, i);
    assert |st.acts| == |st.row|;
    assert st.acts[i].symbol == st.row[i].symbol;
    NothingDropped(st.acts, st.row, st.isFinal, i);
    DefaultIs(G, st);
    if st.d != 0 {
      assert st.row[i].number == st.d && !st.row[i].shift;
      hide *;
      DefaultOffered(T, val, s, st, i);
    } else if st.row[i].suppressed == 0 {
      forall j | 0 <= j < |st.row| && j != i ensures st.row[j].symbol != st.row[i].symbol {
        assert st.acts[j].symbol == st.row[j].symbol;
      }
      hide *;
      AloneIsOffered(T, G, A, M, f, P, val, s, st, i);
    } else {
      hide *;
      ConflictIsOffered(T, G, A, M, f, P, val, s, st, i);
    }
  }

  lemma DefaultOffered(T: Tables, val: seq<int>, s: nat, st: State, i: nat)
    requires Sized(T) && s < |T.defred| && st.d > 2 && T.defred[s] == st.d - 2 && i < |st.row| && st.row[i].symbol < |val|
    requires st.row[i].number == st.d && !st.row[i].shift
    ensures Offered(T, val, s, st.row[i])
  {}

  // ----- Exactly what is dropped is missing -----

  /** All actions of the automaton in state s are offered. */
  ghost predicate OffersState(T: Tables, G: Grammar, A: Automaton, M: GotoMap, f: Sets, val: seq<int>, s: nat) {
    && |val| == G.nsyms
    && (forall a: nat, t: int :: 0 < a < G.ntokens && a < |val| && IsGoto(A, s, a, t) ==> OffersShift(T, s, val[a], t))
    && (forall r: nat, a: nat :: a < G.ntokens && a < |val| && InLookahead(G, A, M, f, s, r, a) ==> OffersReduce(T, s, val[a], r - 2))
  }

  /** Precedence has dropped none of the actions. */
  ghost predicate NoneDropped(row: seq<Action>) { forall k :: 0 <= k < |row| ==> row[k].suppressed != 2 }

  lemma LookaheadIsAct(G: Grammar, A: Automaton, M: GotoMap, f: Sets, s: nat, r: nat, a: nat)
    requires IsLR0(G, A) && GotosExact(G, A, M) && InLookahead(G, A, M, f, s, r, a) && a < G.ntokens
    ensures IsAct(G, A, M, f, s, a, r, false) && s < A.NStates()
  {
    var i: nat :| i < |f| && Lookback(G, A, M, s, r, i) && a in f[i];
    var p :| RuleFrom(G, A, M, i, r, p) && p[|Body(G, r)|] == s;
    NumberedGoto(G, A, M, i);
    LeftSide(G, A, M.from[i], SymbolOf(A, M, i), M.to[i], r);
    assert p[..|p|] == p;
    TrackPrefix(G, A, M.to[i], r, p, |Body(G, r)|);
    TrackEnd(G, A, p, r);
    Sizes(G, A);
  }

  lemma NothingMissing(T: Tables, G: Grammar, A: Automaton, M: GotoMap, f: Sets, P: Prec, val: seq<int>, s: nat, st: State)
    requires StateGiven(T, G, A, M, f, P, val, s, st) && NoneDropped(st.row)
    ensures OffersState(T, G, A, M, f, val, s)
  {
    GivenParts(T, G, A, M, f, P, val, s, st);
    hide StateGiven, Decided, IsLR0, GotosExact, InTables, OffersShift, OffersReduce, InLookahead, Proper;
    forall a: nat, t: int | 0 < a < G.ntokens && a < |val| && IsGoto(A, s, a, t) ensures OffersShift(T, s, val[a], t) {
      var i := ActRow(G, A, M, f, P, s, st, a, t, true);
      KeptIsOffered(T, G, A, M, f, P, val, s, st, i);
    }
    forall r: nat, a: nat | a < G.ntokens && a < |val| && InLookahead(G, A, M, f, s, r, a) ensures OffersReduce(T, s, val[a], r - 2) {
      LookaheadIsAct(G, A, M, f, s, r, a);
      var i := ActRow(G, A, M, f, P, s, st, a, r, false);
      KeptIsOffered(T, G, A, M, f, P, val, s, st, i);
    }
  }

  /** An action that was dropped belongs to a shift that was dropped or prevails. */
  lemma DroppedGroup(acts: seq<Action>, row: seq<Action>, isFinal: bool, i: nat) returns (lo: nat)
    requires Ordered(acts) && Flagged(acts, row, isFinal) && i < |row| == |acts| && row[i].suppressed == 2
    ensures lo <= i && row[lo].shift && row[lo].symbol == row[i].symbol && (i != lo ==> !row[i].shift) && row[lo].suppressed <= 2
  {
    var hi;
    lo, hi := FlagOf(acts, row, isFinal, i);
    var g := acts[lo..hi];
    assert g[0] == acts[lo] && g[i - lo] == acts[i];
    assert acts[lo].shift == row[lo].shift && acts[i].shift == row[i].shift;
    assert acts[lo].symbol == row[lo].symbol && acts[i].symbol == row[i].symbol;
    assert Flag(g, isFinal && acts[i].symbol == 0, i - lo) == 2;
    assert row[lo].suppressed == Flag(g, isFinal && acts[i].symbol == 0, lo - lo);
  }

  /** A dropped action is not kept under another entry. */
  lemma DroppedNotKept(st: State, i: nat)
    requires Ordered(st.row) && i < |st.row| && st.row[i].suppressed == 2
    ensures forall n: nat :: Kept(st, st.row[i].symbol, n, st.row[i].shift) ==> !st.row[i].shift && n != st.row[i].number
  {
    forall n: nat | Kept(st, st.row[i].symbol, n, st.row[i].shift) ensures !st.row[i].shift && n != st.row[i].number {
      var m: nat :| m < |st.row| && Is(st.row[m], st.row[i].symbol, n, st.row[i].shift) && st.row[m].suppressed <= 1;
      DifferentEntries(st.row, m, i);
    }
  }

  lemma DifferentEntries(row: seq<Action>, i: nat, j: nat)
    requires Ordered(row) && i < |row| && j < |row| && row[i].symbol == row[j].symbol && row[i].shift == row[j].shift && i != j
    ensures !row[i].shift && row[i].number != row[j].number
  {
    InOrder(row, i, j);
    InOrder(row, j, i);
  }

  lemma SomethingMissing(T: Tables, G: Grammar, A: Automaton, M: GotoMap, f: Sets, P: Prec, val: seq<int>, s: nat, st: State, i: nat) returns (j: nat)
    requires StateGiven(T, G, A, M, f, P, val, s, st) && i < |st.row| && st.row[i].suppressed == 2
    ensures j < |st.row| && !Offered(T, val, s, st.row[j])
  {
    GivenParts(T, G, A, M, f, P, val, s, st);
    var lo := DroppedGroup(st.acts, st.row, st.isFinal, i);
    ShiftNoDefault(st, lo);
    RowOrdered(st.acts, st.row);
    TokenBound(st.row, G.ntokens, i);
    TokenBound(st.row, G.ntokens, lo);
    hide StateGiven, Decided, IsLR0, GotosExact, InTables, OffersShift, OffersReduce, Proper, Kept, Ordered;
    j := if st.row[lo].suppressed == 2 then lo else i;
    DroppedNotKept(st, j);
    var x := st.row[j].symbol;
    if st.row[j].shift {
      if OffersShift(T, s, val[x], st.row[j].number) { OfferedShiftKept(T, G, A, M, f, P, val, s, st, x, st.row[j].number); }
    } else {
      if OffersReduce(T, s, val[x], st.row[j].number - 2) { OfferedReductionKept(T, G, A, M, f, P, val, s, st, x, st.row[j].number); }
    }
  }

  /** A state that still shifts has no default reduction. */
  lemma ShiftNoDefault(st: State, i: nat)
    requires DefaultOk(st.row, st.d) && i < |st.row| && st.row[i].shift
    ensures st.row[i].suppressed <= 1 ==> st.d == 0
  {}

  /** The tables offer every action of state s exactly if precedence has dropped none. */
  lemma OffersUnlessDropped(T: Tables, G: Grammar, A: Automaton, M: GotoMap, f: Sets, P: Prec, val: seq<int>, s: nat, st: State)
    requires StateGiven(T, G, A, M, f, P, val, s, st)
    ensures OffersState(T, G, A, M, f, val, s) <==> NoneDropped(st.row)
  {
    if NoneDropped(st.row) {
      NothingMissing(T, G, A, M, f, P, val, s, st);
    } else {
      var i: nat :| i < |st.row| && st.row[i].suppressed == 2;
      var j := SomethingMissing(T, G, A, M, f, P, val, s, st, i);
      RowIsOffered(T, G, A, M, f, P, val, s, st, j);
    }
  }

  lemma RowIsOffered(T: Tables, G: Grammar, A: Automaton, M: GotoMap, f: Sets, P: Prec, val: seq<int>, s: nat, st: State, j: nat)
    requires StateGiven(T, G, A, M, f, P, val, s, st) && j < |st.row|
    ensures OffersState(T, G, A, M, f, val, s) ==> Offered(T, val, s, st.row[j])
  {
    GivenParts(T, G, A, M, f, P, val, s, st);
    RowAct(G, A, M, f, P, s, st, j);
    ActNumber(G, A, M, f, s, st.row[j].symbol, st.row[j].number, st.row[j].shift);
    hide StateGiven, Decided, IsLR0, GotosExact, InTables, OffersShift, OffersReduce, Proper, InLookahead;
  }

  lemma SameEntry(row: seq<Action>, i: nat, j: nat)
    requires Ordered(row) && i < |row| && j < |row|
    ensures row[i].symbol == row[j].symbol && row[i].shift == row[j].shift && row[i].number == row[j].number ==> i == j
  {
    if row[i].symbol == row[j].symbol && row[i].shift == row[j].shift && i != j { DifferentEntries(row, i, j); }
  }

  /** In a state with a default reduction an action in force is that reduction, and nothing is in conflict with it. */
  lemma DefaultAlone(st: State, i: nat)
    requires DefaultOk(st.row, st.d) && st.d != 0 && Ordered(st.row) && i < |st.row| && st.row[i].suppressed == 0
    ensures !st.row[i].shift && st.row[i].number == st.d && !SomeConflicting(st, st.row[i].symbol)
  {
    forall j: nat | j < |st.row| ensures !Conflicting(st.row[j], st.row[i].symbol) {
      SameEntry(st.row, i, j);
    }
  }

  /** An action in force is what the driver selects, unless another action on its token is in conflict: then the
      driver sees only the conflict. */
  lemma InForceIsSelected(T: Tables, G: Grammar, A: Automaton, M: GotoMap, f: Sets, P: Prec, val: seq<int>, s: nat, st: State, i: nat, inp: seq<int>, c: Config)
    requires StateGiven(T, G, A, M, f, P, val, s, st) && i < |st.row| && st.row[i].suppressed == 0
    requires Sized(T) && HasState(T, c) && Top(c) == s && st.row[i].symbol < |val| && Token(inp, c.pos) == val[st.row[i].symbol]
    ensures Act(T, inp, c) == (if st.row[i].shift then Shift(st.row[i].number) else Reduce(st.row[i].number - 2))
      <==> !SomeConflicting(st, st.row[i].symbol)
  {
    GivenParts(T, G, A, M, f, P, val, s, st);
    var x := st.row[i].symbol;
    TokenBound(st.row, G.ntokens, i);
    if st.d != 0 {
      DefaultIs(G, st);
      RowOrdered(st.acts, st.row);
      DefaultAlone(st, i);
      return;
    }
    ConflictFound(T, G.ntokens, val, s, st, x);
    ShiftFound(T, G.ntokens, val, s, st, x);
    ReductionFound(T, G.ntokens, val, s, st, x);
    assert Live(st.row[i], st.d, x, st.row[i].shift);
    LiveIsIt(st, i, true);
    LiveIsIt(st, i, false);
    hide StateGiven, Decided, IsLR0, GotosExact, InTables, Lookup, Live, EntryAt, Ones;
  }

  lemma LiveIsIt(st: State, i: nat, sh: bool)
    requires Ordered(st.acts) && Flagged(st.acts, st.row, st.isFinal) && i < |st.row| && st.row[i].suppressed == 0
    ensures forall t :: IsLive(st, st.row[i].symbol, sh, t) ==> sh == st.row[i].shift && t == Value(st.row[i])
  {
    hide Ordered, Flagged;
    forall t | IsLive(st, st.row[i].symbol, sh, t) ensures sh == st.row[i].shift && t == Value(st.row[i]) {
      var m: nat :| m < |st.row| && Live(st.row[m], st.d, st.row[i].symbol, sh) && t == Value(st.row[m]);
      SameInForce(st, i, m);
    }
  }

  lemma SameInForce(st: State, i: nat, j: nat)
    requires Ordered(st.acts) && Flagged(st.acts, st.row, st.isFinal) && i < |st.row| && j < |st.row|
    requires st.row[i].suppressed == 0 && st.row[j].suppressed == 0 && st.row[i].symbol == st.row[j].symbol
    ensures i == j
  {
    assert st.acts[i].symbol == st.row[i].symbol && st.acts[j].symbol == st.row[j].symbol;
    if i < j { OneInForce(st.acts, st.row, st.isFinal, i, j); }
    if j < i { OneInForce(st.acts, st.row, st.isFinal, j, i); }
  }
}
