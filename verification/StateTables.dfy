/** What the driver finds for one state: its rows say what mkpar.c decided. */
module StateTables {
  import opened Grammars
  import opened Automata
  import opened Digraphs
  import opened Gotos
  import opened LalrSpec
  import opened LalrFollow
  import opened Actions
  import opened Conflicts
  import opened ConflictTable
  import opened TokenActions
  import opened DriverMachine
  import opened DriverSound

  /** The lookups through one base give the cells of one part. */
  ghost predicate LooksUp(T: Tables, base: int, cells: seq<int>, nt: nat, part: nat, val: seq<int>, off: int) {
    && Sized(T) && part < 3 && nt <= |val| && |cells| == 3 * nt
    && (forall x: nat, t: int :: x < nt ==> (Lookup(T, base, val[x]) == Some(t) <==> Part(cells, nt, part, x) != 0 && t == Part(cells, nt, part, x) - off))
    && (forall c: int :: c >= 0 && Lookup(T, base, c).Some? ==> IsValue(val, nt, c))
  }

  ghost predicate IsValue(val: seq<int>, nt: nat, c: int) { exists x: nat :: x < nt <= |val| && val[x] == c }

  ghost predicate DefaultOk(row: seq<Action>, d: nat) {
    if d != 0 then SolelyReduces(row, |row|, d) else forall r :: !SolelyReduces(row, |row|, r)
  }

  /** All there is to know of one state: its actions, their flags, its default reduction, and its rows in the tables. */
  datatype State = State(acts: seq<Action>, row: seq<Action>, isFinal: bool, d: nat, cells: seq<int>)

  ghost predicate InTables(T: Tables, nt: nat, val: seq<int>, s: nat, st: State) {
    && Sized(T) && s < |T.defred|
    && T.defred[s] == (if st.d != 0 then st.d - 2 else 0)
    && Cells(st.row, st.d, nt, |st.row|, st.cells, T.ctable, -1)
    && LooksUp(T, T.sindex[s], st.cells, nt, 0, val, 0)
    && LooksUp(T, T.rindex[s], st.cells, nt, 1, val, 2)
    && LooksUp(T, T.cindex[s], st.cells, nt, 2, val, 1)
  }

  ghost predicate Decided(G: Grammar, A: Automaton, M: GotoMap, f: Sets, P: Prec, s: nat, st: State) {
    && ParsedRow(G, A, M, f, P, s, st.acts) && Flagged(st.acts, st.row, st.isFinal) && DefaultOk(st.row, st.d)
  }

  // ----- The flagged list -----

  lemma RowIs(acts: seq<Action>, row: seq<Action>, i: nat, x: nat, n: nat, sh: bool)
    requires SameButFlags(acts, row) && i < |row|
    ensures Is(row[i], x, n, sh) <==> Is(acts[i], x, n, sh)
  {}

  lemma RowOrdered(acts: seq<Action>, row: seq<Action>)
    requires Ordered(acts) && SameButFlags(acts, row)
    ensures Ordered(row)
  {
    forall i, j | 0 <= i < j < |row| ensures Precedes(row[i], row[j]) {
      assert Precedes(acts[i], acts[j]);
    }
  }

  /** Every action in the list is one of the automaton. */
  lemma RowAct(G: Grammar, A: Automaton, M: GotoMap, f: Sets, P: Prec, s: nat, st: State, i: nat)
    requires Decided(G, A, M, f, P, s, st) && i < |st.row|
    ensures IsAct(G, A, M, f, s, st.row[i].symbol, st.row[i].number, st.row[i].shift)
  {
    var a := st.row[i];
    RowIs(st.acts, st.row, i, a.symbol, a.number, a.shift);
    assert Mem(st.acts, a.symbol, a.number, a.shift);
  }

  /** Every action of the automaton is in the list. */
  lemma ActRow(G: Grammar, A: Automaton, M: GotoMap, f: Sets, P: Prec, s: nat, st: State, x: nat, n: nat, sh: bool) returns (i: nat)
    requires Decided(G, A, M, f, P, s, st) && IsAct(G, A, M, f, s, x, n, sh)
    ensures i < |st.row| == |st.acts| && Is(st.row[i], x, n, sh)
  {
    hide IsAct;
    assert Mem(st.acts, x, n, sh);
    i :| i < |st.acts| && Is(st.acts[i], x, n, sh);
    RowIs(st.acts, st.row, i, x, n, sh);
  }

  /** Two entries for the same action are one. */
  lemma RowUnique(row: seq<Action>, i: nat, j: nat)
    requires Ordered(row) && i < |row| && j < |row| && row[i].symbol == row[j].symbol && row[i].shift == row[j].shift
    requires row[i].shift || row[i].number == row[j].number
    ensures i == j
  {
    InOrder(row, i, j);
    InOrder(row, j, i);
  }

  lemma InOrder(row: seq<Action>, i: nat, j: nat)
    requires Ordered(row)
    ensures i < j < |row| ==> Precedes(row[i], row[j])
  {}

  lemma ActNumber(G: Grammar, A: Automaton, M: GotoMap, f: Sets, s: nat, x: nat, n: nat, sh: bool)
    requires IsLR0(G, A) && GotosExact(G, A, M) && IsAct(G, A, M, f, s, x, n, sh)
    ensures x < G.ntokens && (if sh then n > 0 && x > 0 else n > 2 && G.IsRule(n))
  {
    if sh {
      var k: nat :| k < |A.shifts[s]| && A.shifts[s][k] == n;
      ShiftTarget(G, A, s, k);
    } else {
      var i: nat :| i < |f| && Lookback(G, A, M, s, n, i) && x in f[i];
      var p :| RuleFrom(G, A, M, i, n, p) && p[|Body(G, n)|] == s;
      NumberedGoto(G, A, M, i);
      LeftSide(G, A, M.from[i], SymbolOf(A, M, i), M.to[i], n);
    }
  }

  lemma NumberedGoto(G: Grammar, A: Automaton, M: GotoMap, i: nat)
    requires GotosExact(G, A, M) && Numbered(M, i)
    ensures SymbolOf(A, M, i) >= 0 && IsGoto(A, M.from[i], SymbolOf(A, M, i), M.to[i])
  {
    var x := GotoOf(G, A, M, i);
  }

  lemma ShiftTarget(G: Grammar, A: Automaton, s: nat, k: nat)
    requires IsLR0(G, A) && s < A.NStates() && k < |A.shifts[s]|
    ensures A.shifts[s][k] > 0 && A.shifts[s][k] < |A.acc| && A.acc[A.shifts[s][k]] > 0
  {
    assert StateOk(G, A, s);
    assert GotoOk(G, A, s, A.shifts[s][k]);
  }

  lemma RowProper(G: Grammar, A: Automaton, M: GotoMap, f: Sets, P: Prec, s: nat, st: State)
    requires IsLR0(G, A) && GotosExact(G, A, M) && Decided(G, A, M, f, P, s, st)
    ensures Proper(st.row, G.ntokens)
  {
    RowOrdered(st.acts, st.row);
    hide Decided, IsLR0, GotosExact;
    forall i | 0 <= i < |st.row| ensures st.row[i].symbol < G.ntokens && st.row[i].number > (if st.row[i].shift then 0 else 2) {
      RowAct(G, A, M, f, P, s, st, i);
      ActNumber(G, A, M, f, s, st.row[i].symbol, st.row[i].number, st.row[i].shift);
    }
  }

  // ----- Conflict lists as the driver reads them -----

  /** How the driver sees an action in a conflict list. */
  function Value(a: Action): int { if a.shift then a.number else a.number - 2 }

  /** Where element k of a list is, behind the -1 when there is no shift. */
  function Pos(ones: seq<Action>, k: nat): nat { if |ones| > 0 && ones[0].shift then k else k + 1 }

  ghost predicate ListProper(ones: seq<Action>) {
    |ones| > 0 && ones[0].number > (if ones[0].shift then 0 else 2) && forall k :: 0 < k < |ones| ==> !ones[k].shift && ones[k].number > 2
  }

  lemma EntryAtPos(ones: seq<Action>, k: nat)
    requires ListProper(ones) && k <= |ones|
    ensures |Entry(ones)| == Pos(ones, |ones|) + 1 && Pos(ones, k) < |Entry(ones)|
    ensures Entry(ones)[Pos(ones, k)] == (if k < |ones| then Value(ones[k]) else -1) && (k < |ones| ==> Value(ones[k]) >= 0)
    ensures !ones[0].shift ==> Entry(ones)[0] == -1
  {}

  /** The alternatives of a conflict are the elements of its list. */
  lemma Alternatives(T: Tables, e: int, ones: seq<Action>)
    requires ListProper(ones) && EntryAt(T.ctable, e, Entry(ones))
    ensures 0 <= e < |T.ctable| && First(T, e) == e + Pos(ones, 0) && (ones[0].shift ==> T.ctable[e] == ones[0].number) && (!ones[0].shift ==> T.ctable[e] == -1)
    ensures forall k: nat :: k < |ones| ==> Elem(T, e, ones, k)
    ensures forall q :: Alternative(T, e, q) ==> IsElem(T, e, ones, q)
    ensures e + Pos(ones, |ones|) < |T.ctable| && T.ctable[e + Pos(ones, |ones|)] == -1
  {
    hide Entry, ListProper, EntryAt, Value;
    EntryAtPos(ones, 0);
    EntryAtPos(ones, |ones|);
    ElementAt(T.ctable, e, Entry(ones), 0);
    HeadValue(ones);
    AtFront(T, e, Entry(ones));
    ElementAt(T.ctable, e, Entry(ones), Pos(ones, |ones|));
    forall k: nat | k < |ones| ensures Elem(T, e, ones, k) {
      ElemHolds(T, e, ones, k);
    }
    forall q | Alternative(T, e, q) ensures IsElem(T, e, ones, q) {
      BeforeEnd(T, e, e + Pos(ones, |ones|), q);
      var k: nat := q - (e + Pos(ones, 0));
      assert k < |ones| && q == e + Pos(ones, k);
    }
  }

  lemma HeadValue(ones: seq<Action>)
    requires ListProper(ones)
    ensures |ones| > 0 && (ones[0].shift ==> Value(ones[0]) == ones[0].number)
  {}

  lemma AtFront(T: Tables, e: int, ent: seq<int>)
    requires EntryAt(T.ctable, e, ent) && |ent| > 0
    ensures 0 <= e && e + |ent| <= |T.ctable|
  {}

  lemma BeforeEnd(T: Tables, e: int, end: int, q: int)
    requires 0 <= e < |T.ctable| && First(T, e) <= end < |T.ctable| && T.ctable[end] < 0
    ensures Alternative(T, e, q) ==> First(T, e) <= q < end
  {}

  /** Element k of the list is an alternative. */
  ghost predicate Elem(T: Tables, e: int, ones: seq<Action>, k: nat)
    requires k < |ones|
  {
    var q := e + Pos(ones, k);
    0 <= q < |T.ctable| && T.ctable[q] == Value(ones[k]) >= 0 && Alternative(T, e, q)
  }

  ghost predicate IsElem(T: Tables, e: int, ones: seq<Action>, q: int) {
    exists k: nat :: k < |ones| && q == e + Pos(ones, k)
  }

  lemma ElemHolds(T: Tables, e: int, ones: seq<Action>, k: nat)
    requires ListProper(ones) && EntryAt(T.ctable, e, Entry(ones)) && k < |ones|
    ensures Elem(T, e, ones, k)
  {
    hide Entry, ListProper, EntryAt, Value;
    HeadValue(ones);
    EntryAtPos(ones, 0);
    AtFront(T, e, Entry(ones));
    ElementAt(T.ctable, e, Entry(ones), 0);
    ElementAt(T.ctable, e, Entry(ones), Pos(ones, 0));
    forall m: nat | m <= k ensures 0 <= e + Pos(ones, m) < |T.ctable| && T.ctable[e + Pos(ones, m)] == Value(ones[m]) >= 0 {
      EntryAtPos(ones, m);
      ElementAt(T.ctable, e, Entry(ones), Pos(ones, m));
    }
    var q := e + Pos(ones, k);
    forall j | First(T, e) <= j <= q ensures T.ctable[j] >= 0 {
      var m := j - (e + Pos(ones, 0));
      assert j == e + Pos(ones, m);
    }
  }

  /** The list of token x holds its conflicting actions. */
  lemma {:induction false} OnesAre(row: seq<Action>, d: nat, x: nat, n: nat)
    requires n <= |row|
    ensures forall a :: a in Ones(row, d, x, n) <==> InOnes(row, d, x, n, a)
    decreases n
  {
    if n > 0 {
      OnesAre(row, d, x, n - 1);
      forall a ensures InOnes(row, d, x, n, a) <==> InOnes(row, d, x, n - 1, a) || (a == row[n - 1] && Conflicting(a, x) && (a.shift || a.number != d)) {
        if a == row[n - 1] { assert n - 1 < n; }
      }
    }
  }

  ghost predicate InOnes(row: seq<Action>, d: nat, x: nat, n: nat, a: Action) {
    n <= |row| && Conflicting(a, x) && (a.shift || a.number != d) && exists i :: 0 <= i < n && row[i] == a
  }

  lemma OnesList(row: seq<Action>, nt: nat, d: nat, x: nat)
    requires Proper(row, nt) && Ones(row, d, x, |row|) != []
    ensures ListProper(Ones(row, d, x, |row|))
  {
    var ones := Ones(row, d, x, |row|);
    OnesProper(row, nt, d, x, |row|);
    forall k | 0 <= k < |ones| ensures ones[k].number > (if ones[k].shift then 0 else 2) {
      assert ones[k] in ones;
      var i :| 0 <= i < |row| && row[i] == ones[k];
    }
  }

  // ----- Lookups by token -----

  ghost predicate IsLive(st: State, x: nat, sh: bool, t: int) {
    exists i :: 0 <= i < |st.row| && Live(st.row[i], st.d, x, sh) && t == Value(st.row[i])
  }

  ghost predicate NoneLive(st: State, x: nat, sh: bool) {
    forall i :: 0 <= i < |st.row| ==> !Live(st.row[i], st.d, x, sh)
  }

  lemma TokenCells(T: Tables, nt: nat, val: seq<int>, s: nat, st: State, x: nat)
    requires InTables(T, nt, val, s, st) && x < nt
    ensures |st.cells| == 3 * nt && CellsAt(st.row, st.d, nt, |st.row|, st.cells, T.ctable, -1, x)
  {}

  /** The shift found for a token is one in force. */
  lemma ShiftFound(T: Tables, nt: nat, val: seq<int>, s: nat, st: State, x: nat)
    requires InTables(T, nt, val, s, st) && x < nt <= |val|
    ensures match Lookup(T, T.sindex[s], val[x])
            case Some(t) => IsLive(st, x, true, t)
            case None => NoneLive(st, x, true)
  {
    TokenCells(T, nt, val, s, st, x);
    hide Cells, Live;
    var v := Part(st.cells, nt, 0, x);
    assert v != 0 ==> Lookup(T, T.sindex[s], val[x]) == Some(v - 0);
  }

  /** The reduction found for a token is one in force, other than the default. */
  lemma ReductionFound(T: Tables, nt: nat, val: seq<int>, s: nat, st: State, x: nat)
    requires InTables(T, nt, val, s, st) && x < nt <= |val|
    ensures match Lookup(T, T.rindex[s], val[x])
            case Some(t) => IsLive(st, x, false, t)
            case None => NoneLive(st, x, false)
  {
    TokenCells(T, nt, val, s, st, x);
    LiveKind(st, x);
    hide Cells, Live;
    var v := Part(st.cells, nt, 1, x);
    assert v != 0 ==> Lookup(T, T.rindex[s], val[x]) == Some(v - 2);
  }

  lemma LiveKind(st: State, x: nat)
    ensures forall i :: 0 <= i < |st.row| && Live(st.row[i], st.d, x, false) ==> Value(st.row[i]) == st.row[i].number - 2
  {}

  ghost predicate SomeConflicting(st: State, x: nat) { exists i :: 0 <= i < |st.row| && Conflicting(st.row[i], x) }

  /** The list found for a token is that of its conflict. */
  lemma ConflictFound(T: Tables, nt: nat, val: seq<int>, s: nat, st: State, x: nat)
    requires InTables(T, nt, val, s, st) && x < nt <= |val|
    ensures match Lookup(T, T.cindex[s], val[x])
            case Some(e) => SomeConflicting(st, x) && EntryAt(T.ctable, e, Entry(Ones(st.row, st.d, x, |st.row|)))
            case None => NoConflict(st.row, |st.row|, x)
  {
    TokenCells(T, nt, val, s, st, x);
    hide Cells, EntryAt, Entry, Lookup, Part;
    var v := Part(st.cells, nt, 2, x);
    var e := v - 1;
    assert v != 0 ==> EntryAt(T.ctable, e, Entry(Ones(st.row, st.d, x, |st.row|)));
    assert v != 0 ==> Lookup(T, T.cindex[s], val[x]) == Some(e);
    if Lookup(T, T.cindex[s], val[x]).Some? {
      assert Lookup(T, T.cindex[s], val[x]) == Some(Lookup(T, T.cindex[s], val[x]).value);
      assert Lookup(T, T.cindex[s], val[x]).value == e;
    }
  }

  /** Without a default reduction, a conflict has a list. */
  lemma ConflictList(T: Tables, nt: nat, val: seq<int>, s: nat, st: State, x: nat)
    requires InTables(T, nt, val, s, st) && x < nt && Proper(st.row, nt) && st.d == 0 && SomeConflicting(st, x)
    ensures ListProper(Ones(st.row, st.d, x, |st.row|))
  {
    OnesAre(st.row, st.d, x, |st.row|);
    var i :| 0 <= i < |st.row| && Conflicting(st.row[i], x);
    assert st.row[i].number != 0;
    assert InOnes(st.row, st.d, x, |st.row|, st.row[i]);
    OnesList(st.row, nt, st.d, x);
  }

  // ----- Soundness of the rows -----

  ghost predicate StateGiven(T: Tables, G: Grammar, A: Automaton, M: GotoMap, f: Sets, P: Prec, val: seq<int>, s: nat, st: State) {
    && IsLR0(G, A) && GotosExact(G, A, M) && ValuesOk(G, val) && s < A.NStates() == |T.defred|
    && InTables(T, G.ntokens, val, s, st) && Decided(G, A, M, f, P, s, st)
  }

  lemma GivenParts(T: Tables, G: Grammar, A: Automaton, M: GotoMap, f: Sets, P: Prec, val: seq<int>, s: nat, st: State)
    requires StateGiven(T, G, A, M, f, P, val, s, st)
    ensures IsLR0(G, A) && WellFormed(G) && GotosExact(G, A, M) && ValuesOk(G, val) && s < A.NStates() == |T.defred| && |val| == G.nsyms > G.ntokens
    ensures InTables(T, G.ntokens, val, s, st) && Decided(G, A, M, f, P, s, st) && Proper(st.row, G.ntokens) && Sized(T)
    ensures |A.shifts| == |A.reds| == |A.acc| == A.NStates() && T.defred[s] == (if st.d != 0 then st.d - 2 else 0)
  {
    RowProper(G, A, M, f, P, s, st);
  }

  /** A token found in a row is the value of a token. */
  lemma TokenOf(T: Tables, base: int, cells: seq<int>, nt: nat, part: nat, val: seq<int>, off: int, c: int) returns (x: nat)
    requires LooksUp(T, base, cells, nt, part, val, off) && c >= 0 && Lookup(T, base, c).Some?
    ensures x < nt <= |val| && val[x] == c
  {
    assert IsValue(val, nt, c);
    x :| x < nt <= |val| && val[x] == c;
  }

  lemma ShiftIsOk(T: Tables, G: Grammar, A: Automaton, M: GotoMap, f: Sets, P: Prec, val: seq<int>, s: nat, st: State, i: nat, x: nat)
    requires StateGiven(T, G, A, M, f, P, val, s, st) && i < |st.row| && st.row[i].symbol == x < |val| && st.row[i].shift
    requires s < |A.shifts|
    ensures ShiftOk(G, A, val, s, val[x], Value(st.row[i]))
  {
    GivenParts(T, G, A, M, f, P, val, s, st);
    hide StateGiven, IsLR0, GotosExact, Decided, InTables;
    RowAct(G, A, M, f, P, s, st, i);
  }

  lemma ReductionIsOk(T: Tables, G: Grammar, A: Automaton, M: GotoMap, f: Sets, P: Prec, val: seq<int>, s: nat, st: State, i: nat)
    requires StateGiven(T, G, A, M, f, P, val, s, st) && i < |st.row| && !st.row[i].shift && s < |A.reds|
    ensures Value(st.row[i]) + 2 in A.reds[s]
  {
    GivenParts(T, G, A, M, f, P, val, s, st);
    hide StateGiven, IsLR0, GotosExact, Decided, InTables;
    RowAct(G, A, M, f, P, s, st, i);
  }

  lemma ShiftsSound(T: Tables, G: Grammar, A: Automaton, M: GotoMap, f: Sets, P: Prec, val: seq<int>, s: nat, st: State, c: int)
    requires StateGiven(T, G, A, M, f, P, val, s, st) && Sized(T) && s < |T.defred| && s < |A.shifts|
    requires c >= 0 && Lookup(T, T.sindex[s], c).Some?
    ensures ShiftOk(G, A, val, s, c, Lookup(T, T.sindex[s], c).value)
  {
    var x := TokenOf(T, T.sindex[s], st.cells, G.ntokens, 0, val, 0, c);
    ShiftFound(T, G.ntokens, val, s, st, x);
    hide StateGiven, Lookup, ShiftOk;
    var i :| 0 <= i < |st.row| && Live(st.row[i], st.d, x, true) && Lookup(T, T.sindex[s], c).value == Value(st.row[i]);
    ShiftIsOk(T, G, A, M, f, P, val, s, st, i, x);
  }

  lemma ReductionsSound(T: Tables, G: Grammar, A: Automaton, M: GotoMap, f: Sets, P: Prec, val: seq<int>, s: nat, st: State, c: int)
    requires StateGiven(T, G, A, M, f, P, val, s, st) && Sized(T) && s < |T.defred| && s < |A.reds|
    requires c >= 0 && Lookup(T, T.rindex[s], c).Some?
    ensures Lookup(T, T.rindex[s], c).value + 2 in A.reds[s]
  {
    var x := TokenOf(T, T.rindex[s], st.cells, G.ntokens, 1, val, 2, c);
    ReductionFound(T, G.ntokens, val, s, st, x);
    hide StateGiven, Lookup;
    var i :| 0 <= i < |st.row| && Live(st.row[i], st.d, x, false) && Lookup(T, T.rindex[s], c).value == Value(st.row[i]);
    ReductionIsOk(T, G, A, M, f, P, val, s, st, i);
  }

  lemma ConflictsSound(T: Tables, G: Grammar, A: Automaton, M: GotoMap, f: Sets, P: Prec, val: seq<int>, s: nat, st: State, c: int)
    requires StateGiven(T, G, A, M, f, P, val, s, st) && Sized(T) && s < |T.defred| && s < |A.reds| == |A.shifts|
    requires c >= 0 && st.d == 0 && Lookup(T, T.cindex[s], c).Some?
    ensures ConflictOk(T, G, A, val, s, c, Lookup(T, T.cindex[s], c).value)
  {
    GivenParts(T, G, A, M, f, P, val, s, st);
    var x := TokenOf(T, T.cindex[s], st.cells, G.ntokens, 2, val, 1, c);
    ConflictFound(T, G.ntokens, val, s, st, x);
    hide StateGiven, Lookup, InTables, Decided, IsLR0, GotosExact, Proper;
    var e := Lookup(T, T.cindex[s], c).value;
    ConflictList(T, G.ntokens, val, s, st, x);
    ListSound(T, G, A, M, f, P, val, s, st, x, e);
  }

  /** The list of a conflict holds a shift of the token and reductions of the state. */
  lemma ListSound(T: Tables, G: Grammar, A: Automaton, M: GotoMap, f: Sets, P: Prec, val: seq<int>, s: nat, st: State, x: nat, e: int)
    requires StateGiven(T, G, A, M, f, P, val, s, st) && s < |A.reds| == |A.shifts| && x < |val|
    requires ListProper(Ones(st.row, st.d, x, |st.row|)) && EntryAt(T.ctable, e, Entry(Ones(st.row, st.d, x, |st.row|)))
    ensures ConflictOk(T, G, A, val, s, val[x], e)
  {
    hide StateGiven, EntryAt, Entry, Alternative, ShiftOk, Ones;
    var ones := Ones(st.row, st.d, x, |st.row|);
    OnesAre(st.row, st.d, x, |st.row|);
    Alternatives(T, e, ones);
    ListKinds(ones);
    hide ListProper, Conflicting;
    if T.ctable[e] >= 0 {
      assert ones[0] in ones;
      var i: nat :| i < |st.row| && st.row[i] == ones[0];
      ShiftIsOk(T, G, A, M, f, P, val, s, st, i, x);
    }
    var end := e + Pos(ones, |ones|);
    forall q | e < q < end ensures T.ctable[q] >= 0 && T.ctable[q] + 2 in A.reds[s] {
      var k: nat := q - e - Pos(ones, 0);
      ElementSound(T, G, A, M, f, P, val, s, st, x, e, k);
    }
    assert ConflictEnd(T, A, s, e, end);
  }

  lemma ElementSound(T: Tables, G: Grammar, A: Automaton, M: GotoMap, f: Sets, P: Prec, val: seq<int>, s: nat, st: State, x: nat, e: int, k: nat)
    requires StateGiven(T, G, A, M, f, P, val, s, st) && s < |A.reds|
    requires var ones := Ones(st.row, st.d, x, |st.row|);
      k < |ones| && ListProper(ones) && Elem(T, e, ones, k) && Pos(ones, k) > 0
    ensures var q := e + Pos(Ones(st.row, st.d, x, |st.row|), k); T.ctable[q] >= 0 && T.ctable[q] + 2 in A.reds[s]
  {
    var ones := Ones(st.row, st.d, x, |st.row|);
    ListKinds(ones);
    OnesAre(st.row, st.d, x, |st.row|);
    hide StateGiven, ListProper, Alternative, Ones, Conflicting;
    assert ones[k] in ones;
    var i: nat :| i < |st.row| && st.row[i] == ones[k];
    ReductionIsOk(T, G, A, M, f, P, val, s, st, i);
  }

  lemma ListKinds(ones: seq<Action>)
    requires ListProper(ones)
    ensures |ones| > 0 && forall k: nat :: 0 < Pos(ones, k) && k < |ones| ==> !ones[k].shift
  {}

  /** The rows of a state hold actions of the automaton only. */
  lemma StateSound(T: Tables, G: Grammar, A: Automaton, M: GotoMap, f: Sets, P: Prec, val: seq<int>, s: nat, st: State)
    requires StateGiven(T, G, A, M, f, P, val, s, st) && Sized(T) && WellFormed(G) && s < |A.shifts| == |A.reds| == |T.defred|
    ensures RowsOk(T, G, A, val, s)
  {
    GivenParts(T, G, A, M, f, P, val, s, st);
    DefaultSound(T, G, A, M, f, P, val, s, st);
    DefaultIs(G, st);
    hide StateGiven, InTables, Decided, IsLR0, GotosExact, Lookup, ShiftOk, ConflictOk, Proper;
    forall a: int | a >= 0 && T.defred[s] == 0 && Lookup(T, T.sindex[s], a).Some? ensures ShiftOk(G, A, val, s, a, Lookup(T, T.sindex[s], a).value) {
      ShiftsSound(T, G, A, M, f, P, val, s, st, a);
    }
    forall a: int | a >= 0 && T.defred[s] == 0 && Lookup(T, T.rindex[s], a).Some? ensures Lookup(T, T.rindex[s], a).value + 2 in A.reds[s] {
      ReductionsSound(T, G, A, M, f, P, val, s, st, a);
    }
    forall a: int | a >= 0 && T.defred[s] == 0 && Lookup(T, T.cindex[s], a).Some? ensures ConflictOk(T, G, A, val, s, a, Lookup(T, T.cindex[s], a).value) {
      ConflictsSound(T, G, A, M, f, P, val, s, st, a);
    }
  }

  /** A default reduction is a rule of the grammar, so it is not lost in the printed table. */
  lemma DefaultIs(G: Grammar, st: State)
    requires DefaultOk(st.row, st.d) && Proper(st.row, G.ntokens)
    ensures st.d != 0 ==> st.d > 2
    ensures st.d != 0 ==> exists i: nat :: i < |st.row| && st.row[i].suppressed <= 1 && !st.row[i].shift && st.row[i].number == st.d
  {}

  lemma DefaultSound(T: Tables, G: Grammar, A: Automaton, M: GotoMap, f: Sets, P: Prec, val: seq<int>, s: nat, st: State)
    requires StateGiven(T, G, A, M, f, P, val, s, st) && s < |A.reds|
    ensures DefaultOk(st.row, st.d) && (st.d != 0 ==> st.d in A.reds[s])
  {
    GivenParts(T, G, A, M, f, P, val, s, st);
    DefaultIs(G, st);
    hide StateGiven, InTables, IsLR0, GotosExact, Proper;
    if st.d != 0 {
      var i: nat :| i < |st.row| && st.row[i].suppressed <= 1 && !st.row[i].shift && st.row[i].number == st.d;
      ReductionIsOk(T, G, A, M, f, P, val, s, st, i);
    }
  }
}
