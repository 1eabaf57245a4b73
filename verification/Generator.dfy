/** The whole generator: from a packed grammar to the tables of the driver (main.c runs lr0, lalr, make_parser and
    output in this order), and what its parsers decide. */
module Generator {
  import opened Grammars
  import opened Automata
  import opened Digraphs
  import opened Lr0Spec
  import opened Lr0
  import opened Gotos
  import opened LalrSpec
  import opened LalrReads
  import opened Lalr
  import opened Actions
  import opened Conflicts
  import opened ConflictTable
  import opened TokenActions
  import opened Packing
  import opened FirstFits
  import opened Packers
  import opened TableRows
  import opened GotoActions
  import opened DriverMachine
  import opened DriverSound
  import opened DriverComplete
  import opened DriverProgress
  import opened StateTables
  import opened StateOffers
  import opened Driver

  /** The values pack_symbols gives (reader.c:1698-1795), with no value declared for two tokens. */
  ghost predicate TokenValues(G: Grammar, val: seq<int>) {
    && WellFormed(G) && |val| == G.nsyms && val[0] == 0
    && (forall a :: 0 < a < G.ntokens ==> val[a] > 0)
    && (forall a, b :: 0 <= a < b < G.ntokens ==> val[a] != val[b])
    && (forall x :: G.ntokens <= x < G.nsyms ==> val[x] == x - G.ntokens - 1)
  }

  lemma ValuesAreOk(G: Grammar, val: seq<int>)
    requires TokenValues(G, val)
    ensures WellFormed(G) && ValuesOk(G, val) && DistinctValues(val, G.ntokens) && |val| == G.nsyms >= G.ntokens + 2
  {}

  // ----- make_parser -----

  /** find_final_state: the goto of state 0 on the goal. */
  method FindFinalState(G: Grammar, A: Automaton) returns (finalState: nat)
    requires IsLR0(G, A)
    ensures IsGoto(A, 0, G.Goal(), finalState)
  {
    ghost var t := GoalTarget(G, A);
    Sizes(G, A);
    GotoBound(A, G.Goal(), t);
    ghost var g: nat :| g < |A.shifts[0]| && A.shifts[0][g] == t;
    var toState := A.shifts[0];
    ItemOne(G);
    var goal := G.ritem[1];
    var i := |toState| - 1;
    finalState := toState[i];
    ShiftSymbol(G, A, 0, i);
    while A.acc[finalState] != goal
      invariant g <= i < |toState| && finalState == toState[i] && finalState < |A.acc|
      decreases i
    {
      i := i - 1;
      finalState := toState[i];
      ShiftSymbol(G, A, 0, i);
    }
    ShiftSymbol(G, A, 0, i);
  }

  lemma ItemOne(G: Grammar)
    requires WellFormed(G)
    ensures |G.ritem| > 1 && G.ritem[1] == G.Goal()
  {}

  lemma GotoBound(A: Automaton, x: int, t: int)
    requires IsGoto(A, 0, x, t)
    ensures |A.shifts| > 0 && t in A.shifts[0] && 0 <= t < |A.acc| && A.acc[t] == x
  {}

  lemma GoalTarget(G: Grammar, A: Automaton) returns (t: nat)
    requires IsLR0(G, A)
    ensures IsGoto(A, 0, G.Goal(), t)
  {
    assert 1 in A.kernel[0];
    KernelInState(G, A, 0, 1);
    t := Advance(G, A, 0, 1);
  }

  /** One state of make_parser: its actions, the flags of remove_conflicts, its default reduction. */
  method DecideState(G: Grammar, A: Automaton, ghost M: GotoMap, ghost f: Sets, P: Prec, lookaheads: array<nat>, LAruleno: array<int>, LA: array<set<int>>, s: nat, isFinal: bool)
    returns (st: State)
    requires IsLR0(G, A) && RedsOrdered(A) && LaIndex(A, lookaheads[..], LAruleno[..]) && s < A.NStates() && GotosExact(G, A, M)
    requires LaExact(G, A, M, f, lookaheads[..], LAruleno[..], LA[..])
    ensures Decided(G, A, M, f, P, s, st)
  {
    hide *;
    var acts := ParseActions(G, A, M, f, P, lookaheads, LAruleno, LA, s);
    ParsedParts(G, A, M, f, P, s, acts);
    var row, SRcount, RRcount := RemoveConflicts(acts, isFinal);
    NumbersPositive(G, A, M, f, P, s, acts, row, isFinal);
    var d := SoleReduction(row);
    st := State(acts, row, isFinal, d, []);
    DecidedIntro(G, A, M, f, P, s, st);
  }

  lemma ParsedParts(G: Grammar, A: Automaton, M: GotoMap, f: Sets, P: Prec, s: nat, acts: seq<Action>)
    requires ParsedRow(G, A, M, f, P, s, acts)
    ensures Ordered(acts) && forall i :: 0 <= i < |acts| ==> acts[i].suppressed == 0
  {
    forall i | 0 <= i < |acts| ensures acts[i].suppressed == 0 {
      assert acts[i] == Make(P, acts[i].symbol, acts[i].number, acts[i].shift);
    }
  }

  lemma NumbersPositive(G: Grammar, A: Automaton, M: GotoMap, f: Sets, P: Prec, s: nat, acts: seq<Action>, row: seq<Action>, isFinal: bool)
    requires IsLR0(G, A) && GotosExact(G, A, M) && ParsedRow(G, A, M, f, P, s, acts) && Flagged(acts, row, isFinal)
    ensures forall i :: 0 <= i < |row| ==> row[i].number > 0
  {
    hide IsLR0, GotosExact;
    forall i | 0 <= i < |row| ensures row[i].number > 0 {
      var a := acts[i];
      assert Is(a, a.symbol, a.number, a.shift);
      assert Mem(acts, a.symbol, a.number, a.shift);
      ActNumber(G, A, M, f, s, a.symbol, a.number, a.shift);
      assert row[i].number == a.number;
    }
  }

  lemma DecidedIntro(G: Grammar, A: Automaton, M: GotoMap, f: Sets, P: Prec, s: nat, st: State)
    requires ParsedRow(G, A, M, f, P, s, st.acts) && Flagged(st.acts, st.row, st.isFinal)
    requires st.d != 0 ==> SolelyReduces(st.row, |st.row|, st.d)
    requires st.d == 0 ==> forall r :: !SolelyReduces(st.row, |st.row|, r)
    ensures Decided(G, A, M, f, P, s, st)
  {}

  ghost predicate AllDecided(G: Grammar, A: Automaton, M: GotoMap, f: Sets, P: Prec, sts: seq<State>, n: nat) {
    n <= |sts| && forall s: nat :: s < n ==> Decided(G, A, M, f, P, s, sts[s])
  }

  lemma DecidedMore(G: Grammar, A: Automaton, M: GotoMap, f: Sets, P: Prec, sts: seq<State>, st: State)
    requires AllDecided(G, A, M, f, P, sts, |sts|) && Decided(G, A, M, f, P, |sts|, st)
    ensures AllDecided(G, A, M, f, P, sts + [st], |sts| + 1)
  {
    hide Decided;
  }

  /** make_parser */
  method MakeParser(G: Grammar, A: Automaton, ghost M: GotoMap, ghost f: Sets, P: Prec, lookaheads: array<nat>, LAruleno: array<int>, LA: array<set<int>>, finalState: nat)
    returns (sts: seq<State>)
    requires IsLR0(G, A) && RedsOrdered(A) && LaIndex(A, lookaheads[..], LAruleno[..]) && GotosExact(G, A, M)
    requires LaExact(G, A, M, f, lookaheads[..], LAruleno[..], LA[..])
    ensures |sts| == |A.kernel| && AllDecided(G, A, M, f, P, sts, |sts|)
  {
    sts := [];
    var i: nat := 0;
    NoneDecided(G, A, M, f, P);
    StatesAre(A);
    hide *;
    while i < |A.kernel|
      invariant i == |sts| <= |A.kernel| && AllDecided(G, A, M, f, P, sts, |sts|)
    {
      var st := DecideState(G, A, M, f, P, lookaheads, LAruleno, LA, i, i == finalState);
      DecidedMore(G, A, M, f, P, sts, st);
      sts := sts + [st];
      i := i + 1;
    }
  }

  lemma NoneDecided(G: Grammar, A: Automaton, M: GotoMap, f: Sets, P: Prec)
    ensures AllDecided(G, A, M, f, P, [], 0)
  {}

  lemma StatesAre(A: Automaton)
    ensures A.NStates() == |A.kernel|
  {}

  // ----- token_actions -----

  /** The three rows of one state. */
  ghost predicate RowsMade(nt: nat, val: seq<int>, conf: seq<int>, st: State, vS: Row, vR: Row, vC: Row) {
    && Cells(st.row, st.d, nt, |st.row|, st.cells, conf, -1)
    && RowHolds(vS, st.cells, nt, 0, val, 0, nt) && RowHolds(vR, st.cells, nt, 1, val, 2, nt) && RowHolds(vC, st.cells, nt, 2, val, 1, nt)
  }

  ghost predicate AllRows(nt: nat, val: seq<int>, conf: seq<int>, sts: seq<State>, shifts: seq<Row>, reds: seq<Row>, confs: seq<Row>) {
    && |shifts| == |reds| == |confs| <= |sts|
    && forall s: nat :: s < |shifts| ==> RowsMade(nt, val, conf, sts[s], shifts[s], reds[s], confs[s])
  }

  lemma CellsExtend(row: seq<Action>, d: nat, nt: nat, cells: seq<int>, conf: seq<int>, conf': seq<int>)
    requires Cells(row, d, nt, |row|, cells, conf, -1) && conf <= conf'
    ensures Cells(row, d, nt, |row|, cells, conf', -1)
  {
    hide ForceCell, EntryAt, Entry;
    forall x: nat | x < nt ensures CellsAt(row, d, nt, |row|, cells, conf', -1, x) {
      assert CellsAt(row, d, nt, |row|, cells, conf, -1, x);
      if Part(cells, nt, 2, x) != 0 { EntryStays(conf, conf', Part(cells, nt, 2, x) - 1, Entry(Ones(row, d, x, |row|))); }
    }
  }

  lemma MoreRows(nt: nat, val: seq<int>, conf: seq<int>, sts: seq<State>, shifts: seq<Row>, reds: seq<Row>, confs: seq<Row>,
      conf': seq<int>, st: State, vS: Row, vR: Row, vC: Row)
    requires AllRows(nt, val, conf, sts, shifts, reds, confs) && conf <= conf' && |shifts| < |sts|
    requires RowsMade(nt, val, conf', st, vS, vR, vC)
    ensures AllRows(nt, val, conf', sts[|shifts| := st], shifts + [vS], reds + [vR], confs + [vC])
  {
    hide RowHolds, Cells;
    var n := |shifts|;
    forall s: nat | s < n + 1
      ensures RowsMade(nt, val, conf', sts[n := st][s], (shifts + [vS])[s], (reds + [vR])[s], (confs + [vC])[s])
    {
      if s < n {
        assert RowsMade(nt, val, conf, sts[s], shifts[s], reds[s], confs[s]);
        CellsExtend(sts[s].row, sts[s].d, nt, sts[s].cells, conf, conf');
      }
    }
  }

  /** token_actions for one state. */
  method StateRows(st: State, nt: nat, val: seq<int>, conf0: seq<int>) returns (st': State, vS: Row, vR: Row, vC: Row, conf: seq<int>)
    requires Proper(st.row, nt) && Whole(conf0) && DistinctValues(val, nt)
    ensures Whole(conf) && conf0 <= conf && RowsMade(nt, val, conf, st', vS, vR, vC)
    ensures st' == st.(cells := st'.cells)
  {
    hide *;
    var actionrow;
    actionrow, conf := StateCells(st.row, st.d, nt, conf0);
    CellsSize(st.row, st.d, nt, |st.row|, actionrow[..], conf, -1);
    vS := ActionRow(actionrow, nt, 0, val, 0);
    vR := ActionRow(actionrow, nt, 1, val, 2);
    vC := ActionRow(actionrow, nt, 2, val, 1);
    st' := st.(cells := actionrow[..]);
    RowsIntro(nt, val, conf, st', vS, vR, vC);
  }

  lemma RowsIntro(nt: nat, val: seq<int>, conf: seq<int>, st: State, vS: Row, vR: Row, vC: Row)
    requires Cells(st.row, st.d, nt, |st.row|, st.cells, conf, -1)
    requires RowHolds(vS, st.cells, nt, 0, val, 0, nt) && RowHolds(vR, st.cells, nt, 1, val, 2, nt) && RowHolds(vC, st.cells, nt, 2, val, 1, nt)
    ensures RowsMade(nt, val, conf, st, vS, vR, vC)
  {}

  ghost predicate AllProper(nt: nat, sts: seq<State>) { forall s: nat :: s < |sts| ==> Proper(sts[s].row, nt) }

  /** Only the cells have been filled in. */
  ghost predicate SameStates(sts: seq<State>, sts': seq<State>) {
    |sts| == |sts'| && forall s: nat :: s < |sts| ==> sts'[s] == sts[s].(cells := sts'[s].cells)
  }

  lemma OneState(sts: seq<State>, sts': seq<State>, i: nat, st: State, nt: nat)
    requires SameStates(sts, sts') && i < |sts'| && st == sts'[i].(cells := st.cells) && AllProper(nt, sts')
    ensures SameStates(sts, sts'[i := st]) && AllProper(nt, sts'[i := st])
  {
    hide Proper;
    var u := sts'[i := st];
    forall s: nat | s < |sts| ensures u[s] == sts[s].(cells := u[s].cells) {}
    forall s: nat | s < |u| ensures Proper(u[s].row, nt) { assert Proper(sts'[s].row, nt); }
  }

  /** token_actions */
  method TokenRows(sts0: seq<State>, nt: nat, val: seq<int>) returns (sts: seq<State>, shifts: seq<Row>, reds: seq<Row>, confs: seq<Row>, conf: seq<int>)
    requires AllProper(nt, sts0) && DistinctValues(val, nt)
    ensures SameStates(sts0, sts) && |shifts| == |sts| && AllRows(nt, val, conf, sts, shifts, reds, confs)
  {
    sts, shifts, reds, confs, conf := sts0, [], [], [], [];
    NoRows(nt, val, sts);
    StatesKept(sts0, sts0);
    hide *;
    while |shifts| < |sts|
      invariant |sts| == |sts0| && |shifts| <= |sts| && SameStates(sts0, sts) && AllProper(nt, sts)
      invariant Whole(conf) && AllRows(nt, val, conf, sts, shifts, reds, confs)
      decreases |sts| - |shifts|
    {
      var i: nat := |shifts|;
      OneProper(nt, sts, i);
      var st, vS, vR, vC, conf' := StateRows(sts[i], nt, val, conf);
      MoreRows(nt, val, conf, sts, shifts, reds, confs, conf', st, vS, vR, vC);
      OneState(sts0, sts, i, st, nt);
      sts, shifts, reds, confs, conf := sts[i := st], shifts + [vS], reds + [vR], confs + [vC], conf';
    }
  }

  lemma OneProper(nt: nat, sts: seq<State>, i: nat)
    requires AllProper(nt, sts) && i < |sts|
    ensures Proper(sts[i].row, nt)
  {}

  lemma NoRows(nt: nat, val: seq<int>, sts: seq<State>)
    ensures AllRows(nt, val, [], sts, [], [], []) && Whole([])
  {}

  lemma StatesKept(sts: seq<State>, sts': seq<State>)
    requires sts == sts'
    ensures SameStates(sts, sts')
  {}

  // ----- goto_actions -----

  /** The column of every nonterminal but `$accept`, and its default, in the order of their values. */
  ghost predicate ColumnsMade(G: Grammar, M: GotoMap, dgoto: seq<int>, cols: seq<Row>) {
    |dgoto| == |cols| && forall x: nat :: G.ntokens < x <= G.ntokens + |cols| ==> ColumnMade(G, M, dgoto, cols, x)
  }

  ghost predicate ColumnMade(G: Grammar, M: GotoMap, dgoto: seq<int>, cols: seq<Row>, x: nat)
    requires G.ntokens < x <= G.ntokens + |cols| && |dgoto| == |cols|
  {
    var k := x - G.ntokens - 1;
    IsDefault(G, M, x, dgoto[k]) && ColumnHolds(G, M, x, dgoto[k], cols[k])
  }

  lemma MoreColumns(G: Grammar, M: GotoMap, dgoto: seq<int>, cols: seq<Row>, x: nat, d: nat, v: Row)
    requires ColumnsMade(G, M, dgoto, cols) && x == G.ntokens + |cols| + 1 && IsDefault(G, M, x, d) && ColumnHolds(G, M, x, d, v)
    ensures ColumnsMade(G, M, dgoto + [d], cols + [v])
  {
    hide ColumnHolds, IsDefault;
    forall y: nat | G.ntokens < y <= x ensures ColumnMade(G, M, dgoto + [d], cols + [v], y) {
      if y < x { assert ColumnMade(G, M, dgoto, cols, y); }
    }
  }

  lemma TargetsBound(G: Grammar, A: Automaton, M: GotoMap)
    requires IsLR0(G, A) && GotosExact(G, A, M)
    ensures BasesOk(G, M) && forall k :: 0 <= k < |M.to| ==> M.to[k] < |A.kernel|
  {
    forall k: nat | k < |M.to| ensures M.to[k] < |A.kernel| {
      GotoSize(G, A, M, k);
    }
  }

  /** goto_actions */
  method GotoColumns(G: Grammar, A: Automaton, M: GotoMap) returns (dgoto: seq<int>, cols: seq<Row>)
    requires IsLR0(G, A) && GotosExact(G, A, M) && G.nsyms > G.ntokens
    ensures ColumnsMade(G, M, dgoto, cols) && |cols| == G.nsyms - G.ntokens - 1
  {
    TargetsBound(G, A, M);
    hide *;
    dgoto, cols := [], [];
    NoColumns(G, M);
    var i: nat := G.ntokens + 1;
    while i < G.nsyms
      invariant G.ntokens < i <= G.nsyms && |cols| == i - G.ntokens - 1 && ColumnsMade(G, M, dgoto, cols)
    {
      NonterminalIntro(G, i);
      var k := DefaultGoto(G, M, |A.kernel|, i);
      var v := SaveColumn(G, A, M, i, k);
      MoreColumns(G, M, dgoto, cols, i, k, v);
      dgoto, cols := dgoto + [k], cols + [v];
      i := i + 1;
    }
  }

  lemma NoColumns(G: Grammar, M: GotoMap)
    ensures ColumnsMade(G, M, [], [])
  {}

  // ----- Packing all rows -----

  ghost predicate RowsOkay(rows: seq<Row>) { forall v :: 0 <= v < |rows| ==> RowOk(rows[v]) }

  /** sort_actions and pack_table, and the parts of the arrays that are printed. */
  method PackRows(nstates: nat, rows: seq<Row>) returns (ok: bool, base: seq<int>, table: seq<int>, check: seq<int>, size: nat, ghost p: Pack)
    requires RowsOkay(rows)
    ensures ok ==> Exact(rows, base, p) && p.high < |p.chk| == |p.tab| && size == p.high
    ensures ok ==> check == p.chk[..p.high + 1] && table == p.tab[..p.high + 1]
    ensures (ok <==> Packable(rows, nstates)) && (Roomy(rows) ==> ok)
  {
    hide Packable, Roomy;
    var packer := new Packer(nstates, rows);
    packer.SortActions();
    ok := packer.PackTable();
    p := packer.P;
    if ok {
      hide Exact, PackOk;
      base, size := packer.base[..], packer.high;
      table, check := packer.table[..size + 1], packer.check[..size + 1];
    } else {
      base, table, check, size := [], [], [], 0;
    }
  }

  /** The tables as the driver gets them. */
  ghost predicate Assembled(T: Tables, ns: nat, shifts: seq<Row>, reds: seq<Row>, confs: seq<Row>, cols: seq<Row>, base: seq<int>, p: Pack) {
    && |shifts| == |reds| == |confs| == ns && |base| == 3 * ns + |cols| + 1
    && Printed(T, p) && Exact(shifts + reds + confs + cols + [Row([], [])], base, p)
    && T.sindex == base[..ns] && T.rindex == base[ns..2 * ns] && T.cindex == base[2 * ns..3 * ns]
    && T.gindex == base[3 * ns..3 * ns + |cols|]
  }

  /** The rows of all kinds in one list. */
  lemma RowAt(ns: nat, shifts: seq<Row>, reds: seq<Row>, confs: seq<Row>, cols: seq<Row>, k: nat)
    requires |shifts| == |reds| == |confs| == ns
    ensures var rows := shifts + reds + confs + cols + [Row([], [])];
      && |rows| == 3 * ns + |cols| + 1
      && (k < ns ==> rows[k] == shifts[k] && rows[ns + k] == reds[k] && rows[2 * ns + k] == confs[k])
      && (k < |cols| ==> rows[3 * ns + k] == cols[k])
  {}

  lemma AllRowsOk(nt: nat, val: seq<int>, conf: seq<int>, sts: seq<State>, shifts: seq<Row>, reds: seq<Row>, confs: seq<Row>, G: Grammar, M: GotoMap, dgoto: seq<int>, cols: seq<Row>)
    requires AllRows(nt, val, conf, sts, shifts, reds, confs) && ColumnsMade(G, M, dgoto, cols)
    ensures RowsOkay(shifts + reds + confs + cols + [Row([], [])])
  {
    forall s: nat | s < |shifts| ensures RowOk(shifts[s]) && RowOk(reds[s]) && RowOk(confs[s]) {
      assert RowsMade(nt, val, conf, sts[s], shifts[s], reds[s], confs[s]);
    }
    forall k: nat | k < |cols| ensures RowOk(cols[k]) {
      assert ColumnMade(G, M, dgoto, cols, k + G.ntokens + 1);
    }
  }

  /** What the driver finds through the base of row x, when the row holds the cells of one part. */
  lemma RowLooksUp(T: Tables, rows: seq<Row>, base: seq<int>, p: Pack, x: nat, cells: seq<int>, nt: nat, part: nat, val: seq<int>, off: int)
    requires Exact(rows, base, p) && Printed(T, p) && x < |rows| && DistinctValues(val, nt) && RowHolds(rows[x], cells, nt, part, val, off, nt)
    ensures x < |base| && LooksUp(T, base[x], cells, nt, part, val, off)
  {
    var v := rows[x];
    assert RowOk(v);
    hide RowHolds, Exact, Printed, HasEntry, Lookup, Part;
    PackSizes(T, rows, base, p, cells, nt, part, val, off, v);
    forall y: nat, t: int | y < nt ensures Lookup(T, base[x], val[y]) == Some(t) <==> Part(cells, nt, part, y) != 0 && t == Part(cells, nt, part, y) - off {
      LookupIsRow(T, rows, base, p, x, val[y], t);
      EntryOfToken(v, cells, nt, part, val, off, y, t);
    }
    forall c: int | c >= 0 && Lookup(T, base[x], c).Some? ensures IsValue(val, nt, c) {
      LookupIsRow(T, rows, base, p, x, c, Lookup(T, base[x], c).value);
      var y := ColumnIsToken(v, cells, nt, part, val, off, c, Lookup(T, base[x], c).value);
    }
  }

  lemma PackSizes(T: Tables, rows: seq<Row>, base: seq<int>, p: Pack, cells: seq<int>, nt: nat, part: nat, val: seq<int>, off: int, v: Row)
    requires Exact(rows, base, p) && Printed(T, p) && DistinctValues(val, nt) && RowHolds(v, cells, nt, part, val, off, nt)
    ensures |base| == |rows| && Sized(T) && part < 3 && nt <= |val| && |cells| == 3 * nt && forall y :: 0 <= y < nt ==> val[y] >= 0
  {}

  lemma RowsOfState(nt: nat, val: seq<int>, conf: seq<int>, sts: seq<State>, shifts: seq<Row>, reds: seq<Row>, confs: seq<Row>, s: nat)
    requires AllRows(nt, val, conf, sts, shifts, reds, confs) && s < |shifts|
    ensures |shifts| == |reds| == |confs| <= |sts| && Cells(sts[s].row, sts[s].d, nt, |sts[s].row|, sts[s].cells, conf, -1)
    ensures RowHolds(shifts[s], sts[s].cells, nt, 0, val, 0, nt) && RowHolds(reds[s], sts[s].cells, nt, 1, val, 2, nt)
    ensures RowHolds(confs[s], sts[s].cells, nt, 2, val, 1, nt)
  {
    hide Cells, RowHolds;
    assert RowsMade(nt, val, conf, sts[s], shifts[s], reds[s], confs[s]);
  }

  /** Where the three rows of state s and their displacements are. */
  lemma AssembledMeans(T: Tables, ns: nat, shifts: seq<Row>, reds: seq<Row>, confs: seq<Row>, cols: seq<Row>, base: seq<int>, p: Pack, s: nat)
    requires Assembled(T, ns, shifts, reds, confs, cols, base, p) && s < ns
    ensures |shifts| == |reds| == |confs| == ns && Printed(T, p) && Exact(shifts + reds + confs + cols + [Row([], [])], base, p)
    ensures |base| == |shifts + reds + confs + cols + [Row([], [])]| == 3 * ns + |cols| + 1
    ensures |T.sindex| == |T.rindex| == |T.cindex| == ns
    ensures T.sindex[s] == base[s] && T.rindex[s] == base[ns + s] && T.cindex[s] == base[2 * ns + s]
    ensures var rows := shifts + reds + confs + cols + [Row([], [])];
      rows[s] == shifts[s] && rows[ns + s] == reds[s] && rows[2 * ns + s] == confs[s]
  {
    hide Exact, Printed;
    RowAt(ns, shifts, reds, confs, cols, s);
  }

  lemma InTablesIntro(T: Tables, nt: nat, val: seq<int>, s: nat, st: State)
    requires s < |T.defred| && T.defred[s] == (if st.d != 0 then st.d - 2 else 0)
    requires s < |T.sindex| && s < |T.rindex| && s < |T.cindex| && Cells(st.row, st.d, nt, |st.row|, st.cells, T.ctable, -1)
    requires LooksUp(T, T.sindex[s], st.cells, nt, 0, val, 0) && LooksUp(T, T.rindex[s], st.cells, nt, 1, val, 2)
    requires LooksUp(T, T.cindex[s], st.cells, nt, 2, val, 1)
    ensures InTables(T, nt, val, s, st)
  {
    hide Cells, Lookup;
  }

  /** The tables hold the rows of state s. */
  lemma StateInTables(T: Tables, ns: nat, shifts: seq<Row>, reds: seq<Row>, confs: seq<Row>, cols: seq<Row>, base: seq<int>, p: Pack, nt: nat, val: seq<int>, conf: seq<int>, sts: seq<State>, s: nat)
    requires Assembled(T, ns, shifts, reds, confs, cols, base, p) && s < ns == |sts| && DistinctValues(val, nt)
    requires AllRows(nt, val, conf, sts, shifts, reds, confs) && conf <= T.ctable && |T.defred| == ns
    requires T.defred[s] == (if sts[s].d != 0 then sts[s].d - 2 else 0)
    ensures InTables(T, nt, val, s, sts[s])
  {
    hide *;
    var st := sts[s];
    var rows := shifts + reds + confs + cols + [Row([], [])];
    AssembledMeans(T, ns, shifts, reds, confs, cols, base, p, s);
    RowsOfState(nt, val, conf, sts, shifts, reds, confs, s);
    CellsExtend(st.row, st.d, nt, st.cells, conf, T.ctable);
    RowLooksUp(T, rows, base, p, s, st.cells, nt, 0, val, 0);
    RowLooksUp(T, rows, base, p, ns + s, st.cells, nt, 1, val, 2);
    RowLooksUp(T, rows, base, p, 2 * ns + s, st.cells, nt, 2, val, 1);
    InTablesIntro(T, nt, val, s, st);
  }

  /** The goto of the driver is that of the automaton. */
  lemma GotoInTables(T: Tables, ns: nat, shifts: seq<Row>, reds: seq<Row>, confs: seq<Row>, base: seq<int>, p: Pack, G: Grammar, A: Automaton, M: GotoMap, cols: seq<Row>, val: seq<int>, s: nat, t: nat)
    requires Assembled(T, ns, shifts, reds, confs, cols, base, p) && IsLR0(G, A) && GotosExact(G, A, M) && TokenValues(G, val)
    requires ColumnsMade(G, M, T.dgoto, cols) && |cols| == G.nsyms - G.ntokens - 1
    requires s < |A.shifts| && t in A.shifts[s] && t < |A.acc| && G.ntokens < A.acc[t] < G.nsyms
    ensures Sized(T) && 0 <= val[A.acc[t]] < |T.gindex| && Goto(T, s, val[A.acc[t]]) == t
  {
    hide Exact, IsLR0, HasEntry, InColumn, RowOk, InSegment, GotosExact, WellFormed, Lookup, Hit;
    var x := A.acc[t];
    var k: nat := x - G.ntokens - 1;
    assert val[x] == k;
    RowAt(ns, shifts, reds, confs, cols, k);
    assert ColumnMade(G, M, T.dgoto, cols, x);
    var rows := shifts + reds + confs + cols + [Row([], [])];
    var d: nat := T.dgoto[k];
    assert IsGoto(A, s, x, t);
    assert rows[3 * ns + k] == cols[k] && T.gindex[k] == base[3 * ns + k] && RowOk(cols[k]);
    GotoListed(G, A, M, x, d, s, t, cols[k]);
    LookupIsRow(T, rows, base, p, 3 * ns + k, s, t);
    if Lookup(T, T.gindex[k], s).Some? {
      var u := Lookup(T, T.gindex[k], s).value;
      LookupIsRow(T, rows, base, p, 3 * ns + k, s, u);
      OnlyListed(G, A, M, x, d, s, t, cols[k], u);
    }
  }

  lemma OnlyListed(G: Grammar, A: Automaton, M: GotoMap, x: nat, d: nat, s: nat, t: nat, v: Row, u: int)
    requires IsLR0(G, A) && GotosExact(G, A, M) && ColumnHolds(G, M, x, d, v) && IsGoto(A, s, x, t) && HasEntry(v, s, u)
    ensures u == t
  {
    hide IsLR0, HasEntry;
    assert InColumn(G, M, x, d, |M.from|, s, u);
    var k: nat :| InSegment(G, M, x, k) && M.from[k] == s && M.to[k] == u;
    assert IsGoto(A, M.from[k], x, M.to[k]);
    GotoUnique(G, A, s, x, t, u);
  }

  lemma GotoListed(G: Grammar, A: Automaton, M: GotoMap, x: nat, d: nat, s: nat, t: nat, v: Row)
    requires GotosExact(G, A, M) && ColumnHolds(G, M, x, d, v) && IsGoto(A, s, x, t) && IsNonterminal(G, x)
    ensures t != d ==> HasEntry(v, s, t)
  {
    assert Listed(G, M, s, x, t);
    var k: nat :| InSegment(G, M, x, k) && M.from[k] == s && M.to[k] == t;
    assert t != d ==> InColumn(G, M, x, d, |M.from|, s, t);
  }

  // ----- The tables as a whole -----

  /** Rules as the driver numbers them. */
  ghost predicate RulesMade(T: Tables, G: Grammar, val: seq<int>) {
    WellFormed(G) && |val| == G.nsyms && |T.len| == |G.rlhs| - 2 && RulesListed(G, val, T.lhs, T.len)
  }

  ghost predicate RulesListed(G: Grammar, val: seq<int>, lhs: seq<int>, len: seq<nat>) {
    |lhs| == |len| && forall n: nat :: n < |len| ==> RuleMade(G, val, n, lhs[n], len[n])
  }

  /** The value of the left side and the length of rule n + 2. */
  ghost predicate RuleMade(G: Grammar, val: seq<int>, n: nat, l: int, k: int) {
    && n + 2 < |G.rlhs| && n + 3 < |G.rrhs| && G.rlhs[n + 2] < |val|
    && l == val[G.rlhs[n + 2]] && k + 1 + G.rrhs[n + 2] == G.rrhs[n + 3]
  }

  /** output_rule_data */
  method RuleData(G: Grammar, val: seq<int>) returns (lhs: seq<int>, len: seq<nat>)
    requires WellFormed(G) && |val| == G.nsyms
    ensures |len| == |G.rlhs| - 2 && RulesListed(G, val, lhs, len)
  {
    lhs, len := [val[G.ntokens]], [2];
    assert RuleOk(G, 2);
    assert RuleMade(G, val, 0, val[G.ntokens], 2);
    var i := 3;
    while i < |G.rlhs|
      invariant 3 <= i <= |G.rlhs| && |len| == i - 2 && RulesListed(G, val, lhs, len)
    {
      assert RuleOk(G, i);
      assert RuleMade(G, val, i - 2, val[G.rlhs[i]], G.rrhs[i + 1] - G.rrhs[i] - 1);
      lhs := lhs + [val[G.rlhs[i]]];
      len := len + [G.rrhs[i + 1] - G.rrhs[i] - 1];
      i := i + 1;
    }
  }

  ghost predicate Built(T: Tables, G: Grammar, A: Automaton, M: GotoMap, f: Sets, P: Prec, val: seq<int>, sts: seq<State>) {
    && Sized(T) && IsLR0(G, A) && GotosExact(G, A, M) && TokenValues(G, val) && RulesMade(T, G, val)
    && |sts| == |T.defred| == |A.kernel| && IsGoto(A, 0, G.Goal(), T.final) && DefaultGotos(T, G, M)
    && forall s: nat :: s < |sts| ==> StateBuilt(T, G, A, M, f, P, val, s, sts[s])
  }

  /** The default of every nonterminal but `$accept` is its most frequent target. */
  ghost predicate DefaultGotos(T: Tables, G: Grammar, M: GotoMap) {
    && |T.dgoto| == G.nsyms - G.ntokens - 1
    && forall k: nat :: k < |T.dgoto| ==> IsDefault(G, M, G.ntokens + 1 + k, T.dgoto[k])
  }

  ghost predicate StateBuilt(T: Tables, G: Grammar, A: Automaton, M: GotoMap, f: Sets, P: Prec, val: seq<int>, s: nat, st: State) {
    && StateGiven(T, G, A, M, f, P, val, s, st)
    && forall t: nat :: s < |A.shifts| && t in A.shifts[s] && t < |A.acc| && G.ntokens < A.acc[t] < G.nsyms ==> TargetOk(T, val, A, s, t)
  }

  ghost predicate TargetOk(T: Tables, val: seq<int>, A: Automaton, s: nat, t: nat)
    requires t < |A.acc|
  {
    Sized(T) && A.acc[t] < |val| && 0 <= val[A.acc[t]] < |T.gindex| && Goto(T, s, val[A.acc[t]]) == t
  }

  lemma BuiltEncodes(T: Tables, G: Grammar, A: Automaton, M: GotoMap, f: Sets, P: Prec, val: seq<int>, sts: seq<State>)
    requires Built(T, G, A, M, f, P, val, sts)
    ensures Encodes(T, G, A, val)
  {
    ValuesAreOk(G, val);
    Sizes(G, A);
    forall n: nat | n < |T.len| ensures RuleRowOk(T, G, val, n) {
      assert RuleOk(G, n + 2);
      assert RuleMade(G, val, n, T.lhs[n], T.len[n]);
    }
    hide IsLR0, TokenValues, StateGiven, RuleRowOk, Goto, RowsOk;
    assert WellFormed(G);
    hide WellFormed, ValuesOk;
    forall s: nat | s < A.NStates() ensures RowsOk(T, G, A, val, s) && DriverSound.GotosOk(T, G, A, val, s) {
      assert StateBuilt(T, G, A, M, f, P, val, s, sts[s]);
      StateSound(T, G, A, M, f, P, val, s, sts[s]);
    }
  }

  /** Precedence has dropped nothing in any state. */
  ghost predicate NothingDroppedIn(sts: seq<State>) { forall s: nat :: s < |sts| ==> NoneDropped(sts[s].row) }

  lemma OffersByState(T: Tables, G: Grammar, A: Automaton, M: GotoMap, f: Sets, val: seq<int>)
    requires IsLR0(G, A) && GotosExact(G, A, M) && |val| == G.nsyms
    ensures OffersAll(T, G, A, M, f, val) <==> forall s: nat :: s < A.NStates() ==> OffersState(T, G, A, M, f, val, s)
  {
    Sizes(G, A);
    hide IsLR0, GotosExact, OffersShift, OffersReduce;
    if forall s: nat :: s < A.NStates() ==> OffersState(T, G, A, M, f, val, s) {
      forall s: int, a: nat, t: int | 0 < a < G.ntokens && a < |val| && IsGoto(A, s, a, t) ensures OffersShift(T, s, val[a], t) {
        assert OffersState(T, G, A, M, f, val, s);
      }
      forall s: nat, r: nat, a: nat | a < G.ntokens && a < |val| && InLookahead(G, A, M, f, s, r, a) ensures OffersReduce(T, s, val[a], r - 2) {
        LookaheadIsAct(G, A, M, f, s, r, a);
        assert OffersState(T, G, A, M, f, val, s);
      }
    }
  }

  /** The tables leave nothing out exactly if precedence has dropped nothing. */
  lemma BuiltOffers(T: Tables, G: Grammar, A: Automaton, M: GotoMap, f: Sets, P: Prec, val: seq<int>, sts: seq<State>)
    requires Built(T, G, A, M, f, P, val, sts)
    ensures OffersAll(T, G, A, M, f, val) <==> NothingDroppedIn(sts)
  {
    ValuesAreOk(G, val);
    StatesAre(A);
    OffersByState(T, G, A, M, f, val);
    hide IsLR0, TokenValues, StateGiven, WellFormed, GotosExact, OffersAll, OffersState, NoneDropped, TargetOk;
    forall s: nat | s < |sts| ensures OffersState(T, G, A, M, f, val, s) <==> NoneDropped(sts[s].row) {
      assert StateBuilt(T, G, A, M, f, P, val, s, sts[s]);
      OffersUnlessDropped(T, G, A, M, f, P, val, s, sts[s]);
    }
  }

  lemma BuiltState(T: Tables, ns: nat, shifts: seq<Row>, reds: seq<Row>, confs: seq<Row>, cols: seq<Row>, base: seq<int>, p: Pack,
      G: Grammar, A: Automaton, M: GotoMap, f: Sets, P: Prec, val: seq<int>, conf: seq<int>, sts: seq<State>, s: nat)
    requires Assembled(T, ns, shifts, reds, confs, cols, base, p) && IsLR0(G, A) && GotosExact(G, A, M) && TokenValues(G, val)
    requires s < ns == |sts| == |A.kernel| == |T.defred| && AllRows(G.ntokens, val, conf, sts, shifts, reds, confs) && conf <= T.ctable
    requires T.defred[s] == (if sts[s].d != 0 then sts[s].d - 2 else 0) && Decided(G, A, M, f, P, s, sts[s])
    requires ColumnsMade(G, M, T.dgoto, cols) && |cols| == G.nsyms - G.ntokens - 1
    ensures StateBuilt(T, G, A, M, f, P, val, s, sts[s])
  {
    ValuesAreOk(G, val);
    StatesAre(A);
    hide IsLR0, WellFormed, TokenValues, GotosExact, Decided, Assembled, AllRows, ColumnsMade, InTables, Goto, IsGoto, ValuesOk, DistinctValues;
    StateInTables(T, ns, shifts, reds, confs, cols, base, p, G.ntokens, val, conf, sts, s);
    forall t: nat | s < |A.shifts| && t in A.shifts[s] && t < |A.acc| && G.ntokens < A.acc[t] < G.nsyms ensures TargetOk(T, val, A, s, t) {
      GotoInTables(T, ns, shifts, reds, confs, base, p, G, A, M, cols, val, s, t);
    }
  }

  ghost predicate DefaultsMade(T: Tables, sts: seq<State>) {
    |T.defred| == |sts| && forall s: nat :: s < |sts| ==> T.defred[s] == if sts[s].d != 0 then sts[s].d - 2 else 0
  }

  lemma DefaultsOfColumns(T: Tables, G: Grammar, M: GotoMap, cols: seq<Row>)
    requires ColumnsMade(G, M, T.dgoto, cols) && |cols| == G.nsyms - G.ntokens - 1
    ensures DefaultGotos(T, G, M)
  {
    hide IsDefault, ColumnHolds;
    forall k: nat | k < |T.dgoto| ensures IsDefault(G, M, G.ntokens + 1 + k, T.dgoto[k]) {
      assert ColumnMade(G, M, T.dgoto, cols, G.ntokens + 1 + k);
    }
  }

  lemma BuiltIntro(T: Tables, ns: nat, shifts: seq<Row>, reds: seq<Row>, confs: seq<Row>, cols: seq<Row>, base: seq<int>, p: Pack,
      G: Grammar, A: Automaton, M: GotoMap, f: Sets, P: Prec, val: seq<int>, conf: seq<int>, sts: seq<State>)
    requires Sized(T) && Assembled(T, ns, shifts, reds, confs, cols, base, p) && IsLR0(G, A) && GotosExact(G, A, M) && TokenValues(G, val)
    requires ns == |sts| == |A.kernel| && DefaultsMade(T, sts) && RulesMade(T, G, val) && AllDecided(G, A, M, f, P, sts, |sts|)
    requires AllRows(G.ntokens, val, conf, sts, shifts, reds, confs) && conf <= T.ctable
    requires ColumnsMade(G, M, T.dgoto, cols) && |cols| == G.nsyms - G.ntokens - 1 && IsGoto(A, 0, G.Goal(), T.final)
    ensures Built(T, G, A, M, f, P, val, sts)
  {
    hide Sized, IsLR0, TokenValues, GotosExact, Decided, Assembled, AllRows, ColumnsMade, RulesMade, IsGoto, StateBuilt, DefaultGotos;
    DefaultsOfColumns(T, G, M, cols);
    forall s: nat | s < |sts| ensures StateBuilt(T, G, A, M, f, P, val, s, sts[s]) {
      BuiltState(T, ns, shifts, reds, confs, cols, base, p, G, A, M, f, P, val, conf, sts, s);
    }
  }

  lemma CellsKeepDecision(G: Grammar, A: Automaton, M: GotoMap, f: Sets, P: Prec, sts: seq<State>, sts': seq<State>)
    requires AllDecided(G, A, M, f, P, sts, |sts|) && SameStates(sts, sts')
    ensures AllDecided(G, A, M, f, P, sts', |sts'|)
  {
    hide ParsedRow, Flagged, DefaultOk;
    forall s: nat | s < |sts'| ensures Decided(G, A, M, f, P, s, sts'[s]) {
      assert Decided(G, A, M, f, P, s, sts[s]);
    }
  }

  lemma DecidedProper(G: Grammar, A: Automaton, M: GotoMap, f: Sets, P: Prec, sts: seq<State>)
    requires IsLR0(G, A) && GotosExact(G, A, M) && AllDecided(G, A, M, f, P, sts, |sts|)
    ensures AllProper(G.ntokens, sts)
  {
    hide IsLR0, GotosExact, Decided, Proper;
    forall s: nat | s < |sts| ensures Proper(sts[s].row, G.ntokens) {
      RowProper(G, A, M, f, P, s, sts[s]);
    }
  }

  /** The rows to be packed: three for each state, one for each nonterminal but the start symbol, and an empty one. */
  ghost predicate RowsOfStates(G: Grammar, M: GotoMap, val: seq<int>, sts: seq<State>, rows: seq<Row>) {
    exists conf: seq<int>, shifts: seq<Row>, reds: seq<Row>, confs: seq<Row>, dgoto: seq<int>, cols: seq<Row> ::
      && AllRows(G.ntokens, val, conf, sts, shifts, reds, confs) && |shifts| == |sts|
      && ColumnsMade(G, M, dgoto, cols) && |cols| == G.nsyms - G.ntokens - 1
      && rows == shifts + reds + confs + cols + [Row([], [])]
  }

  /** The cells of the states, the gotos and the token values leave no choice of rows. */
  lemma RowsUnique(G: Grammar, M: GotoMap, val: seq<int>, sts: seq<State>, rows: seq<Row>, rows': seq<Row>)
    requires RowsOfStates(G, M, val, sts, rows) && RowsOfStates(G, M, val, sts, rows')
    ensures rows == rows'
  {
    hide AllRows, ColumnsMade;
    var conf, shifts, reds, confs, dgoto, cols :| && AllRows(G.ntokens, val, conf, sts, shifts, reds, confs) && |shifts| == |sts|
      && ColumnsMade(G, M, dgoto, cols) && |cols| == G.nsyms - G.ntokens - 1
      && rows == shifts + reds + confs + cols + [Row([], [])];
    var conf', shifts', reds', confs', dgoto', cols' :| && AllRows(G.ntokens, val, conf', sts, shifts', reds', confs') && |shifts'| == |sts|
      && ColumnsMade(G, M, dgoto', cols') && |cols'| == G.nsyms - G.ntokens - 1
      && rows' == shifts' + reds' + confs' + cols' + [Row([], [])];
    TokenRowsUnique(G.ntokens, val, conf, conf', sts, shifts, reds, confs, shifts', reds', confs');
    ColumnsUnique(G, M, dgoto, cols, dgoto', cols');
  }

  lemma TokenRowsUnique(nt: nat, val: seq<int>, conf: seq<int>, conf': seq<int>, sts: seq<State>,
      shifts: seq<Row>, reds: seq<Row>, confs: seq<Row>, shifts': seq<Row>, reds': seq<Row>, confs': seq<Row>)
    requires AllRows(nt, val, conf, sts, shifts, reds, confs) && AllRows(nt, val, conf', sts, shifts', reds', confs') && |shifts| == |shifts'| == |sts|
    ensures shifts == shifts' && reds == reds' && confs == confs'
  {
    hide RowsMade;
    forall s: nat | s < |sts| ensures shifts[s] == shifts'[s] && reds[s] == reds'[s] && confs[s] == confs'[s] {
      StateRowsUnique(nt, val, conf, conf', sts[s], shifts[s], reds[s], confs[s], shifts'[s], reds'[s], confs'[s]);
    }
  }

  lemma StateRowsUnique(nt: nat, val: seq<int>, conf: seq<int>, conf': seq<int>, st: State, vS: Row, vR: Row, vC: Row, vS': Row, vR': Row, vC': Row)
    requires RowsMade(nt, val, conf, st, vS, vR, vC) && RowsMade(nt, val, conf', st, vS', vR', vC')
    ensures vS == vS' && vR == vR' && vC == vC'
  {
    hide RowOk, HasEntry, FromCell;
  }

  lemma ColumnsUnique(G: Grammar, M: GotoMap, dgoto: seq<int>, cols: seq<Row>, dgoto': seq<int>, cols': seq<Row>)
    requires ColumnsMade(G, M, dgoto, cols) && ColumnsMade(G, M, dgoto', cols') && |cols| == |cols'|
    ensures dgoto == dgoto' && cols == cols'
  {
    hide ColumnHolds, IsDefault;
    forall k: nat | k < |cols| ensures dgoto[k] == dgoto'[k] && cols[k] == cols'[k] {
      var x := G.ntokens + 1 + k;
      assert ColumnMade(G, M, dgoto, cols, x) && ColumnMade(G, M, dgoto', cols', x);
      DefaultUnique(G, M, x, dgoto[k], dgoto'[k]);
      ColumnUnique(G, M, x, dgoto[k], cols[k], cols'[k]);
    }
  }

  lemma ColumnUnique(G: Grammar, M: GotoMap, x: nat, d: nat, v: Row, v': Row)
    requires ColumnHolds(G, M, x, d, v) && ColumnHolds(G, M, x, d, v')
    ensures v == v'
  {
    hide RowOk, HasEntry, InColumn, ColumnOf;
  }

  lemma AllRowsIntro(G: Grammar, M: GotoMap, val: seq<int>, conf: seq<int>, sts: seq<State>, shifts: seq<Row>, reds: seq<Row>, confs: seq<Row>, dgoto: seq<int>, cols: seq<Row>)
    requires AllRows(G.ntokens, val, conf, sts, shifts, reds, confs) && |shifts| == |sts|
    requires ColumnsMade(G, M, dgoto, cols) && |cols| == G.nsyms - G.ntokens - 1
    ensures RowsOfStates(G, M, val, sts, shifts + reds + confs + cols + [Row([], [])])
  {
    hide AllRows, ColumnsMade;
  }

  /** The tables of ns states surely stay below MAXTABLE: every row has at most one entry for each token or each state,
      and all entries times the longest row, the number of rows and the largest column are less. */
  ghost predicate Small(G: Grammar, val: seq<int>, ns: nat) {
    var nt, nv := G.ntokens, G.nsyms - G.ntokens;
    nt <= |val| && forall a: nat :: a < nt ==>
      Entries(ns, nt, nv) * Larger(ns, nt) + (3 * ns + nv) + Larger(ns, val[a]) < MAXTABLE
  }

  function Larger(x: int, y: int): int { if x > y then x else y }

  function Entries(ns: int, nt: int, nv: int): int { ns * nt + ns * nt + ns * nt + (nv - 1) * ns }

  lemma TokenRowsBounded(rows: seq<Row>, nt: nat, val: seq<int>, ns: nat, largest: int)
    requires |rows| == ns && nt <= |val| && forall a: nat :: a < nt ==> val[a] <= largest
    requires forall s: nat :: s < ns ==> TokenRow(rows[s], nt, val)
    ensures Total(rows) <= ns * nt && Bounded(rows, nt, largest)
  {
    hide Total;
    forall s: nat | s < ns ensures |rows[s].froms| <= nt && forall k :: 0 <= k < |rows[s].froms| ==> rows[s].froms[k] <= largest {
      assert TokenRow(rows[s], nt, val);
    }
    TotalBound(rows, nt);
  }

  ghost predicate Bounded(rows: seq<Row>, t: int, largest: int) {
    forall v :: 0 <= v < |rows| ==> |rows[v].froms| <= t && forall k :: 0 <= k < |rows[v].froms| ==> rows[v].froms[k] <= largest
  }

  lemma BoundedJoined(a: seq<Row>, b: seq<Row>, t: int, t': int, largest: int)
    requires Bounded(a, t, largest) && Bounded(b, t', largest)
    ensures Bounded(a + b, Larger(t, t'), largest) && Total(a + b) == Total(a) + Total(b)
  {
    hide Total;
    TotalJoined(a, b);
  }

  lemma RowsOfTokens(nt: nat, val: seq<int>, conf: seq<int>, st: State, vS: Row, vR: Row, vC: Row)
    requires RowsMade(nt, val, conf, st, vS, vR, vC) && DistinctValues(val, nt)
    ensures TokenRow(vS, nt, val) && TokenRow(vR, nt, val) && TokenRow(vC, nt, val)
  {
    hide RowHolds, Cells;
    RowFroms(vS, st.cells, nt, 0, val, 0);
    RowFroms(vR, st.cells, nt, 1, val, 2);
    RowFroms(vC, st.cells, nt, 2, val, 1);
  }

  lemma StatesBounded(nt: nat, val: seq<int>, conf: seq<int>, sts: seq<State>, shifts: seq<Row>, reds: seq<Row>, confs: seq<Row>, largest: int)
    requires AllRows(nt, val, conf, sts, shifts, reds, confs) && DistinctValues(val, nt) && forall a: nat :: a < nt ==> val[a] <= largest
    ensures Total(shifts) <= |shifts| * nt && Total(reds) <= |shifts| * nt && Total(confs) <= |shifts| * nt
    ensures |reds| == |confs| == |shifts| && Bounded(shifts, nt, largest) && Bounded(reds, nt, largest) && Bounded(confs, nt, largest)
  {
    hide RowsMade, Total, Bounded, TokenRow;
    assert nt <= |val|;
    forall s: nat | s < |shifts| ensures TokenRow(shifts[s], nt, val) && TokenRow(reds[s], nt, val) && TokenRow(confs[s], nt, val) {
      assert RowsMade(nt, val, conf, sts[s], shifts[s], reds[s], confs[s]);
      RowsOfTokens(nt, val, conf, sts[s], shifts[s], reds[s], confs[s]);
    }
    hide AllRows, DistinctValues;
    TokenRowsBounded(shifts, nt, val, |shifts|, largest);
    TokenRowsBounded(reds, nt, val, |shifts|, largest);
    TokenRowsBounded(confs, nt, val, |shifts|, largest);
  }

  lemma ColumnsBounded(G: Grammar, A: Automaton, M: GotoMap, dgoto: seq<int>, cols: seq<Row>, largest: int)
    requires IsLR0(G, A) && GotosExact(G, A, M) && ColumnsMade(G, M, dgoto, cols) && |A.kernel| <= largest
    ensures Total(cols) <= |cols| * |A.kernel| && Bounded(cols, |A.kernel|, largest)
  {
    hide IsLR0, GotosExact, Total, ColumnHolds;
    forall k: nat | k < |cols|
      ensures |cols[k].froms| <= |A.kernel| && forall j :: 0 <= j < |cols[k].froms| ==> cols[k].froms[j] <= largest
    {
      assert ColumnMade(G, M, dgoto, cols, k + G.ntokens + 1);
      ColumnSize(G, A, M, k + G.ntokens + 1, dgoto[k], cols[k]);
    }
    TotalBound(cols, |A.kernel|);
  }

  lemma SmallIsRoomy(G: Grammar, A: Automaton, M: GotoMap, val: seq<int>, conf: seq<int>, sts: seq<State>, shifts: seq<Row>, reds: seq<Row>, confs: seq<Row>, dgoto: seq<int>, cols: seq<Row>)
    requires IsLR0(G, A) && GotosExact(G, A, M) && TokenValues(G, val) && Small(G, val, |sts|) && |sts| == |A.kernel| == |shifts|
    requires AllRows(G.ntokens, val, conf, sts, shifts, reds, confs) && ColumnsMade(G, M, dgoto, cols) && |cols| == G.nsyms - G.ntokens - 1
    ensures Roomy(shifts + reds + confs + cols + [Row([], [])])
  {
    var ns, nt, nv := |sts|, G.ntokens, G.nsyms - G.ntokens;
    var largest := SmallBound(G, val, ns);
    ValuesDistinct(G, val);
    hide *;
    StatesBounded(nt, val, conf, sts, shifts, reds, confs, largest);
    ColumnsBounded(G, A, M, dgoto, cols, largest);
    EmptyBounded(largest);
    BoundedJoined(shifts, reds, nt, nt, largest);
    BoundedJoined(shifts + reds, confs, Larger(nt, nt), nt, largest);
    BoundedJoined(shifts + reds + confs, cols, Larger(Larger(nt, nt), nt), ns, largest);
    BoundedJoined(shifts + reds + confs + cols, [Row([], [])], Larger(Larger(Larger(nt, nt), nt), ns), 0, largest);
    LargerMeans(ns, nt);
    BoundsMeet(shifts + reds + confs + cols + [Row([], [])], ns, nt, nv, largest);
  }

  lemma SmallBound(G: Grammar, val: seq<int>, ns: nat) returns (largest: int)
    requires TokenValues(G, val) && Small(G, val, ns)
    ensures ns <= largest && forall a: nat :: a < G.ntokens ==> val[a] <= largest
    ensures Entries(ns, G.ntokens, G.nsyms - G.ntokens) * Larger(ns, G.ntokens) + (3 * ns + (G.nsyms - G.ntokens)) + largest < MAXTABLE
  {
    assert 0 < G.ntokens <= |val|;
    hide Entries, WellFormed;
    largest := ns;
    var b: nat := 0;
    while b < G.ntokens
      invariant b <= G.ntokens <= |val| && ns <= largest && forall a: nat :: a < b ==> val[a] <= largest
      invariant largest == ns || exists a: nat :: a < b && largest == val[a]
    {
      if val[b] > largest { largest := val[b]; }
      b := b + 1;
    }
    assert Larger(ns, val[0]) >= ns;
  }

  lemma EmptyBounded(largest: int)
    ensures Total([Row([], [])]) == 0 && Bounded([Row([], [])], 0, largest)
  {
    assert [Row([], [])][..0] == [];
  }

  lemma LargerMeans(ns: nat, nt: nat)
    ensures Larger(Larger(Larger(Larger(nt, nt), nt), ns), 0) == Larger(ns, nt) >= 0
  {}

  lemma BoundsMeet(rows: seq<Row>, ns: nat, nt: nat, nv: nat, largest: int)
    requires |rows| == 3 * ns + nv && nv > 0 && Total(rows) <= Entries(ns, nt, nv) && Bounded(rows, Larger(ns, nt), largest)
    requires Entries(ns, nt, nv) * Larger(ns, nt) + (3 * ns + nv) + largest < MAXTABLE
    ensures Roomy(rows)
  {
    hide Total, Entries, Roomy;
    BoundedIsRoomy(rows, Entries(ns, nt, nv), Larger(ns, nt), 3 * ns + nv, largest);
  }

  lemma ValuesDistinct(G: Grammar, val: seq<int>)
    requires TokenValues(G, val)
    ensures DistinctValues(val, G.ntokens) && G.nsyms > G.ntokens
  {}

  /** output: the rows, the packed table, and the arrays the driver indexes. */
  method Output(G: Grammar, A: Automaton, M: GotoMap, ghost f: Sets, P: Prec, val: seq<int>, sts0: seq<State>, finalState: nat)
    returns (ok: bool, T: Tables, ghost sts: seq<State>, ghost rows: seq<Row>)
    requires IsLR0(G, A) && GotosExact(G, A, M) && TokenValues(G, val) && |sts0| == |A.kernel| && AllDecided(G, A, M, f, P, sts0, |sts0|)
    requires IsGoto(A, 0, G.Goal(), finalState)
    ensures SameStates(sts0, sts) && (ok ==> Built(T, G, A, M, f, P, val, sts))
    ensures (ok <==> Packable(rows, |sts|)) && (Small(G, val, |sts|) ==> ok)
    ensures RowsOfStates(G, M, val, sts, rows)
  {
    hide *;
    ValuesAreOk(G, val);
    NonterminalCount(G);
    DecidedProper(G, A, M, f, P, sts0);
    var lhs, len := RuleData(G, val);
    var sts1, shifts, reds, confs, conf := TokenRows(sts0, G.ntokens, val);
    sts := sts1;
    var dgoto, cols := GotoColumns(G, A, M);
    RowCounts(G, M, dgoto, cols, G.ntokens, val, conf, sts1, shifts, reds, confs, sts0);
    AllRowsOk(G.ntokens, val, conf, sts1, shifts, reds, confs, G, M, dgoto, cols);
    var all := shifts + reds + confs + cols + [Row([], [])];
    rows := all;
    AllRowsIntro(G, M, val, conf, sts1, shifts, reds, confs, dgoto, cols);
    if Small(G, val, |sts1|) { SmallIsRoomy(G, A, M, val, conf, sts1, shifts, reds, confs, dgoto, cols); }
    var ns := |sts1|;
    RowAt(ns, shifts, reds, confs, cols, 0);
    var base, table, check, size;
    ghost var p;
    ok, base, table, check, size, p := PackRows(ns, all);
    var defred := DefaultTable(sts1);
    var ctable := if conf == [] then [0] else conf;
    T := Tables(lhs, len, defred, dgoto, [], [], [], [], table, check, ctable, size, finalState);
    if ok {
      BaseSize(all, base, p);
      T := T.(sindex := base[..ns], rindex := base[ns..2 * ns], cindex := base[2 * ns..3 * ns], gindex := base[3 * ns..3 * ns + |cols|]);
      CellsKeepDecision(G, A, M, f, P, sts0, sts1);
      AssembledIntro(T, ns, shifts, reds, confs, cols, base, p, sts1, G, val);
      assert conf <= T.ctable;
      BuiltIntro(T, ns, shifts, reds, confs, cols, base, p, G, A, M, f, P, val, conf, sts1);
    }
  }

  lemma NonterminalCount(G: Grammar)
    requires WellFormed(G)
    ensures G.nsyms >= G.ntokens + 2
  {}

  lemma RowCounts(G: Grammar, M: GotoMap, dgoto: seq<int>, cols: seq<Row>, nt: nat, val: seq<int>, conf: seq<int>, sts: seq<State>, shifts: seq<Row>, reds: seq<Row>, confs: seq<Row>, sts0: seq<State>)
    requires ColumnsMade(G, M, dgoto, cols) && AllRows(nt, val, conf, sts, shifts, reds, confs) && SameStates(sts0, sts)
    ensures |dgoto| == |cols| && |shifts| == |reds| == |confs| && |sts| == |sts0|
  {}

  lemma BaseSize(rows: seq<Row>, base: seq<int>, p: Pack)
    requires Exact(rows, base, p)
    ensures |base| == |rows|
  {}

  /** output_yydefred */
  method DefaultTable(sts: seq<State>) returns (defred: seq<int>)
    ensures |defred| == |sts| && forall s: nat :: s < |sts| ==> defred[s] == if sts[s].d != 0 then sts[s].d - 2 else 0
  {
    defred := [];
    var i := 0;
    while i < |sts|
      invariant |defred| == i <= |sts| && forall s: nat :: s < i ==> defred[s] == if sts[s].d != 0 then sts[s].d - 2 else 0
    {
      defred := defred + [if sts[i].d != 0 then sts[i].d - 2 else 0];
      i := i + 1;
    }
  }

  lemma AssembledIntro(T: Tables, ns: nat, shifts: seq<Row>, reds: seq<Row>, confs: seq<Row>, cols: seq<Row>, base: seq<int>, p: Pack, sts: seq<State>, G: Grammar, val: seq<int>)
    requires |shifts| == |reds| == |confs| == ns == |sts| && |base| == 3 * ns + |cols| + 1 && |T.dgoto| == |cols|
    requires Exact(shifts + reds + confs + cols + [Row([], [])], base, p) && p.high < |p.chk| == |p.tab| && T.size == p.high
    requires T.check == p.chk[..p.high + 1] && T.table == p.tab[..p.high + 1]
    requires T.sindex == base[..ns] && T.rindex == base[ns..2 * ns] && T.cindex == base[2 * ns..3 * ns] && T.gindex == base[3 * ns..3 * ns + |cols|]
    requires |T.defred| == |sts| && forall s: nat :: s < |sts| ==> T.defred[s] == if sts[s].d != 0 then sts[s].d - 2 else 0
    requires WellFormed(G) && |val| == G.nsyms && |T.len| == |G.rlhs| - 2 && RulesListed(G, val, T.lhs, T.len)
    ensures Sized(T) && Assembled(T, ns, shifts, reds, confs, cols, base, p) && DefaultsMade(T, sts) && RulesMade(T, G, val)
  {
    hide Exact;
  }

  // ----- What a generated parser decides -----

  /** It never leaves an array, never aborts, and accepts only what the grammar derives. */
  ghost predicate Sound(T: Tables, G: Grammar, val: seq<int>)
    requires WellFormed(G)
  {
    Sized(T) && forall inp: seq<int>, n: nat :: RunIsSound(T, G, val, inp, n)
  }

  ghost predicate RunIsSound(T: Tables, G: Grammar, val: seq<int>, inp: seq<int>, n: nat)
    requires WellFormed(G) && Sized(T)
  {
    var r := Run(T, inp, Start(), n);
    !r.Crashed? && !r.Aborted? && (r.Accepted? ==> Derivable(G, val, inp, r.final.pos) && Token(inp, r.final.pos) == 0)
  }

  /** It reports an error only when no derivation exists. */
  ghost predicate Complete(T: Tables, G: Grammar, val: seq<int>)
    requires WellFormed(G)
  {
    Sized(T) && forall inp: seq<int>, n: nat :: Run(T, inp, Start(), n).SyntaxError? ==> NoDerivation(G, val, inp)
  }

  ghost predicate NoDerivation(G: Grammar, val: seq<int>, inp: seq<int>)
    requires WellFormed(G)
  {
    forall pos: nat :: !(Derivable(G, val, inp, pos) && Token(inp, pos) == 0)
  }

  /** Where every resolution of the conflicts ends, so does the run: it accepts if and only if there is a derivation. */
  ghost predicate Decides(T: Tables, G: Grammar, val: seq<int>)
    requires WellFormed(G)
  {
    Sized(T) && forall inp: seq<int>, bound: nat :: Ends(T, inp, Start().cfg, bound) ==> IsDecided(T, G, val, inp)
  }

  ghost predicate IsDecided(T: Tables, G: Grammar, val: seq<int>, inp: seq<int>)
    requires WellFormed(G) && Sized(T)
  {
    exists n: nat :: if NoDerivation(G, val, inp) then Run(T, inp, Start(), n).SyntaxError? else Run(T, inp, Start(), n).Accepted?
  }

  lemma CompleteDecides(T: Tables, G: Grammar, val: seq<int>)
    requires WellFormed(G) && Sound(T, G, val) && Complete(T, G, val)
    ensures Decides(T, G, val)
  {
    hide WellFormed, Sized, Run, Derivable, Ends;
    forall inp: seq<int>, bound: nat | Ends(T, inp, Start().cfg, bound) ensures IsDecided(T, G, val, inp) {
      var n := SearchEnds(T, inp, bound);
      assert RunIsSound(T, G, val, inp, n);
    }
  }

  lemma EncodesSound(T: Tables, G: Grammar, A: Automaton, val: seq<int>)
    requires Encodes(T, G, A, val)
    ensures WellFormed(G) && Sound(T, G, val)
  {
    assert WellFormed(G) && Sized(T);
    hide Encodes, WellFormed, Sized, Derivable, Run;
    forall inp: seq<int>, n: nat ensures RunIsSound(T, G, val, inp, n) {
      DriverIsSound(T, G, A, val, inp, n);
    }
  }

  lemma OffersComplete(T: Tables, G: Grammar, A: Automaton, val: seq<int>, M: GotoMap, f: Sets)
    requires Encodes(T, G, A, val) && GotosExact(G, A, M) && FollowSets(G, A, M, f) && OffersAll(T, G, A, M, f, val)
    ensures WellFormed(G) && Complete(T, G, val)
  {
    assert WellFormed(G) && Sized(T);
    hide Encodes, WellFormed, Sized, Derivable, Run, GotosExact, FollowSets, OffersAll;
    forall inp: seq<int>, n: nat | Run(T, inp, Start(), n).SyntaxError? ensures NoDerivation(G, val, inp) {
      DriverDecides(T, G, A, val, M, f, inp, n);
    }
  }

  /** No rule has a precedence of its own or from its last token. */
  predicate NoRulePrecedence(P: Prec) { forall r :: 0 <= r < |P.rulePrec| ==> P.rulePrec[r] <= 0 }

  /** Without precedences nothing is ever dropped. */
  lemma NothingToDrop(G: Grammar, A: Automaton, M: GotoMap, f: Sets, P: Prec, sts: seq<State>)
    requires AllDecided(G, A, M, f, P, sts, |sts|) && NoRulePrecedence(P)
    ensures NothingDroppedIn(sts)
  {
    forall s: nat | s < |sts| ensures NoneDropped(sts[s].row) {
      assert Decided(G, A, M, f, P, s, sts[s]);
      MadeWithout(P, sts[s].acts);
      forall k: nat | k < |sts[s].row| ensures sts[s].row[k].suppressed != 2 {
        WithoutPrecedence(sts[s].acts, sts[s].row, sts[s].isFinal, k);
      }
    }
  }

  lemma MadeWithout(P: Prec, acts: seq<Action>)
    requires Made(P, acts) && NoRulePrecedence(P)
    ensures forall k :: 0 <= k < |acts| && !acts[k].shift ==> acts[k].prec <= 0
  {
    forall k | 0 <= k < |acts| && !acts[k].shift ensures acts[k].prec <= 0 {
      assert acts[k] == Make(P, acts[k].symbol, acts[k].number, acts[k].shift);
    }
  }

  /** What the stages before the packing have made: the canonical automaton with its gotos and least Follow sets, the
      decided actions of every state, and the rows to be packed. */
  ghost predicate Generated(G: Grammar, P: Prec, val: seq<int>, A: Automaton, M: GotoMap, f: Sets, sts: seq<State>, rows: seq<Row>) {
    && WellFormed(G) && IsLR0(G, A) && AllReached(A) && GotosExact(G, A, M) && FollowSets(G, A, M, f)
    && |sts| == |A.kernel| && AllDecided(G, A, M, f, P, sts, |sts|) && RowsOfStates(G, M, val, sts, rows)
  }

  /** The generator, for any grammar.  It succeeds exactly if first fit finds room for the rows below MAXTABLE, and
      surely if the numbers of states, tokens and nonterminals are small enough.  The tables then encode the canonical
      automaton with its LALR(1) lookaheads, and offer all of its actions exactly if precedence has dropped none.
      Their parser is sound, whatever precedences are declared, and if none was dropped (in particular when none is
      declared) it is complete, with all conflicts left for the driver to try. */
  method MakeTables(G: Grammar, P: Prec, val: seq<int>)
    returns (ok: bool, T: Tables, ghost A: Automaton, ghost M: GotoMap, ghost f: Sets, ghost sts: seq<State>, ghost rows: seq<Row>)
    requires WellFormed(G) && TokenValues(G, val)
    ensures Generated(G, P, val, A, M, f, sts, rows)
    ensures (ok <==> Packable(rows, |sts|)) && (Small(G, val, |sts|) ==> ok)
    ensures ok ==> Built(T, G, A, M, f, P, val, sts)
    ensures ok ==> Encodes(T, G, A, val) && (OffersAll(T, G, A, M, f, val) <==> NothingDroppedIn(sts))
    ensures ok ==> Sound(T, G, val)
    ensures ok && NothingDroppedIn(sts) ==> Complete(T, G, val) && Decides(T, G, val)
    ensures NoRulePrecedence(P) ==> NothingDroppedIn(sts)
    ensures ok && NoRulePrecedence(P) ==> Complete(T, G, val) && Decides(T, G, val)
  {
    hide *;
    var aut := Generate(G);
    var lookaheads, LAruleno, LA, gm;
    lookaheads, LAruleno, LA, gm, f := ComputeLalr(G, aut);
    A, M := aut, gm;
    var finalState := FindFinalState(G, aut);
    var made := MakeParser(G, aut, gm, f, P, lookaheads, LAruleno, LA, finalState);
    ok, T, sts, rows := Output(G, aut, gm, f, P, val, made, finalState);
    CellsKeepDecision(G, A, M, f, P, made, sts);
    StatesCount(made, sts);
    GeneratedIntro(G, P, val, A, M, f, sts, rows);
    if NoRulePrecedence(P) { NothingToDrop(G, A, M, f, P, sts); }
    if ok {
      BuiltEncodes(T, G, A, M, f, P, val, sts);
      BuiltOffers(T, G, A, M, f, P, val, sts);
      EncodesSound(T, G, A, val);
      if NothingDroppedIn(sts) {
        OffersComplete(T, G, A, val, M, f);
        CompleteDecides(T, G, val);
      }
    }
  }

  lemma GeneratedIntro(G: Grammar, P: Prec, val: seq<int>, A: Automaton, M: GotoMap, f: Sets, sts: seq<State>, rows: seq<Row>)
    requires WellFormed(G) && IsLR0(G, A) && AllReached(A) && GotosExact(G, A, M) && FollowSets(G, A, M, f)
    requires |sts| == |A.kernel| && AllDecided(G, A, M, f, P, sts, |sts|) && RowsOfStates(G, M, val, sts, rows)
    ensures Generated(G, P, val, A, M, f, sts, rows)
  {
    hide IsLR0, AllReached, GotosExact, FollowSets, AllDecided, RowsOfStates, WellFormed;
  }

  lemma GeneratedMeans(G: Grammar, P: Prec, val: seq<int>, A: Automaton, M: GotoMap, f: Sets, sts: seq<State>, rows: seq<Row>)
    requires Generated(G, P, val, A, M, f, sts, rows)
    ensures WellFormed(G) && GotosExact(G, A, M) && FollowSets(G, A, M, f)
  {
    hide IsLR0, AllReached, GotosExact, FollowSets, AllDecided, RowsOfStates, WellFormed;
  }

  lemma StatesCount(sts: seq<State>, sts': seq<State>)
    requires SameStates(sts, sts')
    ensures |sts| == |sts'|
  {}

  /** Generator and driver together, with no hypothesis but a well-formed grammar and its token values.  A parser is
      made exactly if first fit finds room for the rows, and surely for a small grammar.  Run for n passes of its loop
      it does what the machine does with tables that encode the automaton, and never aborts; if it accepts, the tokens
      up to the end marker are derived from the goal; if it reports a syntax error and precedence has dropped no
      action, there is no such derivation. */
  method GenerateAndParse(G: Grammar, P: Prec, val: seq<int>, inp: seq<int>, n: nat)
    returns (made: bool, T: Tables, st: Status, ghost A: Automaton, ghost M: GotoMap, ghost f: Sets, ghost sts: seq<State>, ghost rows: seq<Row>)
    requires WellFormed(G) && TokenValues(G, val)
    ensures Generated(G, P, val, A, M, f, sts, rows) && (NoRulePrecedence(P) ==> NothingDroppedIn(sts))
    ensures (made <==> Packable(rows, |sts|)) && (Small(G, val, |sts|) ==> made)
    ensures made ==> Encodes(T, G, A, val) && Sized(T) && st == StatusOf(Run(T, inp, Start(), n)) && st != Abort
    ensures made && st == Accept ==> exists pos: nat :: Derivable(G, val, inp, pos) && Token(inp, pos) == 0
    ensures made && st == Fail && NothingDroppedIn(sts) ==> NoDerivation(G, val, inp)
    ensures made && NothingDroppedIn(sts) ==> Decides(T, G, val)
  {
    hide *;
    made, T, A, M, f, sts, rows := MakeTables(G, P, val);
    GeneratedMeans(G, P, val, A, M, f, sts, rows);
    st := Continue;
    if made {
      EncodesSized(T, G, A, val);
      st := ParseInput(T, inp, n, G, A, val);
      if st == Fail && NothingDroppedIn(sts) { FailMeansNone(T, G, A, val, M, f, inp); }
    }
  }

  lemma EncodesSized(T: Tables, G: Grammar, A: Automaton, val: seq<int>)
    requires Encodes(T, G, A, val)
    ensures Sized(T)
  {
    hide IsLR0, ValuesOk, RuleRowOk, RowsOk, Sized;
  }

  lemma FailMeansNone(T: Tables, G: Grammar, A: Automaton, val: seq<int>, M: GotoMap, f: Sets, inp: seq<int>)
    requires Encodes(T, G, A, val) && GotosExact(G, A, M) && FollowSets(G, A, M, f) && OffersAll(T, G, A, M, f, val)
    requires forall k: nat :: !CanAccept(T, inp, Start().cfg, k)
    ensures WellFormed(G) && NoDerivation(G, val, inp)
  {
    assert WellFormed(G) && Sized(T);
    hide Encodes, WellFormed, Sized, Derivable, CanAccept, GotosExact, FollowSets, OffersAll;
    forall pos: nat ensures !(Derivable(G, val, inp, pos) && Token(inp, pos) == 0) {
      if Derivable(G, val, inp, pos) && Token(inp, pos) == 0 {
        SentenceCanBeAccepted(T, G, A, val, M, f, inp, pos);
      }
    }
  }
}
