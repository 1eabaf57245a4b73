/** Conflict resolution and default reductions (mkpar.c, remove_conflicts, sole_reduction and defreds). */
module Conflicts {
  import opened Actions

  // ----- What precedence decides -----

  datatype Verdict = Undecided | ShiftWins | ReduceWins | Neither

  /** The shift s against the reduction r on the same token: precedences decide when both have one, and
      associativity decides between equal precedences. */
  function Compare(s: Action, r: Action): Verdict {
    if !(s.prec > 0 && r.prec > 0) then Undecided
    else if s.prec < r.prec then ReduceWins
    else if s.prec > r.prec then ShiftWins
    else if s.assoc == LEFT then ReduceWins
    else if s.assoc == RIGHT then ShiftWins
    else Neither
  }

  /** The first reduction that wins over the shift at the head of the group; |g| when none does. */
  function Winner(g: seq<Action>): (w: nat)
    ensures w <= |g| && (|g| > 0 ==> w > 0)
    ensures forall k :: 0 < k < w ==> Compare(g[0], g[k]) != ReduceWins
    ensures 0 < w < |g| ==> Compare(g[0], g[w]) == ReduceWins
  {
    WinnerFrom(g, 1)
  }

  function WinnerFrom(g: seq<Action>, i: nat): (w: nat)
    ensures w <= |g| && (i <= |g| ==> i <= w)
    ensures i > 0 ==> forall k :: i <= k < w ==> Compare(g[0], g[k]) != ReduceWins
    ensures 0 < i <= w < |g| ==> Compare(g[0], g[w]) == ReduceWins
    decreases |g| - i
  {
    if i >= |g| then |g|
    else if Compare(g[0], g[i]) == ReduceWins then i
    else WinnerFrom(g, i + 1)
  }

  predicate SomeVerdict(g: seq<Action>, v: Verdict) {
    exists k :: 0 < k < |g| && Compare(g[0], g[k]) == v
  }

  /** All actions g of a state on one token, a shift first if there is one: what becomes of action k.
      Nothing competes with a single action. At the end of input in the final state, and between reductions alone,
      all stay in conflict. Otherwise reductions are compared with the shift in turn. Up to the first that wins
      over it, a reduction is dropped unless the comparison is undecided; the winner is in force if it is the
      last one, and it and all after it are in conflict if not. The shift is dropped when a reduction wins or both
      are ruled out, is in conflict when some comparison is undecided, and is in force when it wins them all. */
  function Flag(g: seq<Action>, atEnd: bool, k: nat): nat
    requires k < |g|
  {
    if |g| == 1 then 0
    else if atEnd || !g[0].shift then 1
    else if k == 0 then
      if Winner(g) < |g| || SomeVerdict(g, Neither) then 2 else if SomeVerdict(g, Undecided) then 1 else 0
    else if k < Winner(g) then
      if Compare(g[0], g[k]) == Undecided then 1 else 2
    else if k == Winner(g) then
      if k + 1 == |g| then 0 else 1
    else 1
  }

  // ----- Groups -----

  /** The actions from lo to hi are all those on their token. */
  ghost predicate IsGroup(acts: seq<Action>, lo: nat, hi: nat) {
    && IsRun(acts, lo, hi) && (hi < |acts| ==> acts[hi].symbol != acts[lo].symbol)
  }

  /** A group that may go on. */
  ghost predicate IsRun(acts: seq<Action>, lo: nat, hi: nat) {
    && lo < hi <= |acts| && (forall i :: lo <= i < hi ==> acts[i].symbol == acts[lo].symbol)
    && (lo > 0 ==> acts[lo - 1].symbol != acts[lo].symbol)
  }

  ghost predicate SameButFlags(acts: seq<Action>, acts': seq<Action>) {
    |acts| == |acts'| && forall i :: 0 <= i < |acts| ==> acts'[i].(suppressed := 0) == acts[i]
  }

  /** The flags of the run from lo to hi are as they should be. */
  ghost predicate RunFlags(acts: seq<Action>, acts': seq<Action>, isFinal: bool, lo: nat, hi: nat) {
    && lo < hi <= |acts| == |acts'|
    && forall i: nat :: lo <= i < hi ==> acts'[i].suppressed == Flag(acts[lo..hi], isFinal && acts[lo].symbol == 0, i - lo)
  }

  /** The result for one state. */
  ghost predicate Flagged(acts: seq<Action>, acts': seq<Action>, isFinal: bool) {
    && SameButFlags(acts, acts')
    && forall lo: nat, hi: nat :: IsGroup(acts, lo, hi) ==> RunFlags(acts, acts', isFinal, lo, hi)
  }

  // ----- Precedence and associativity alone -----

  /** The shift has the higher precedence, or the same one and is right associative. */
  predicate Outranks(s: Action, r: Action) { 0 < r.prec < s.prec || (0 < r.prec == s.prec && s.assoc == RIGHT) }

  /** The reduction has the higher precedence, or the same one and the token is left associative. */
  predicate Yields(s: Action, r: Action) { 0 < s.prec < r.prec || (0 < s.prec == r.prec && s.assoc == LEFT) }

  predicate Comparable(s: Action, r: Action) { s.prec > 0 && r.prec > 0 }

  predicate AtEnd(acts: seq<Action>, isFinal: bool, i: nat)
    requires i < |acts|
  {
    isFinal && acts[i].symbol == 0
  }

  predicate Rivals(acts: seq<Action>, i: nat, j: nat) {
    i < |acts| && j < |acts| && i != j && acts[i].symbol == acts[j].symbol
  }

  lemma ByPrecedence(s: Action, r: Action)
    ensures Compare(s, r) == ShiftWins <==> Outranks(s, r)
    ensures Compare(s, r) == ReduceWins <==> Yields(s, r)
    ensures Compare(s, r) == Undecided <==> !Comparable(s, r)
  {}

  // ----- One more action in a run -----

  function Append(g: seq<Action>, a: Action): seq<Action> { g + [a] }

  lemma {:induction false} WinnerAppend(g: seq<Action>, a: Action, i: nat)
    requires 0 < i <= |g|
    ensures WinnerFrom(Append(g, a), i) == if WinnerFrom(g, i) < |g| then WinnerFrom(g, i)
      else if Compare(g[0], a) == ReduceWins then |g| else |g| + 1
    decreases |g| - i
  {
    var h := Append(g, a);
    if i < |g| {
      assert h[i] == g[i] && h[0] == g[0];
      WinnerAppend(g, a, i + 1);
    } else {
      assert h[i] == a && h[0] == g[0];
      assert WinnerFrom(h, i + 1) == |h|;
    }
  }

  lemma VerdictAppend(g: seq<Action>, a: Action, v: Verdict)
    requires |g| > 0
    ensures SomeVerdict(Append(g, a), v) <==> SomeVerdict(g, v) || Compare(g[0], a) == v
  {
    var h := Append(g, a);
    if SomeVerdict(g, v) {
      var k :| 0 < k < |g| && Compare(g[0], g[k]) == v;
      assert h[k] == g[k];
    }
    assert h[|g|] == a;
  }

  /** The action that later ones are compared with. */
  function Pref(g: seq<Action>, atEnd: bool): nat {
    if |g| > 1 && !atEnd && g[0].shift && Winner(g) < |g| then Winner(g) else 0
  }

  /** What remove_conflicts writes into the new action and into the preferred one. */
  function NewFlag(pref: Action, p: Action, atEnd: bool): nat {
    if atEnd || !pref.shift then 1
    else match Compare(pref, p)
      case Undecided => 1
      case ShiftWins => 2
      case ReduceWins => 0
      case Neither => 2
  }

  function PrefFlag(pref: Action, p: Action, atEnd: bool): nat {
    if atEnd || !pref.shift then (if pref.suppressed == 0 then 1 else pref.suppressed)
    else match Compare(pref, p)
      case Undecided => if pref.suppressed == 0 then 1 else pref.suppressed
      case ShiftWins => pref.suppressed
      case ReduceWins => 2
      case Neither => 2
  }

  /** Reductions after the head of a group. */
  ghost predicate GroupOk(g: seq<Action>) { |g| > 0 && forall k :: 0 < k < |g| ==> !g[k].shift }

  lemma PrefStep(g: seq<Action>, a: Action, atEnd: bool)
    requires GroupOk(g) && !a.shift
    ensures Pref(g, atEnd) < |g|
    ensures Pref(Append(g, a), atEnd) ==
      if !atEnd && g[Pref(g, atEnd)].shift && Compare(g[Pref(g, atEnd)], a) == ReduceWins then |g| else Pref(g, atEnd)
  {
    WinnerAppend(g, a, 1);
  }

  /** The flags of the longer run follow from those of the shorter one by the two assignments of the source. */
  lemma FlagStep(g: seq<Action>, a: Action, atEnd: bool, k: nat, pref: Action)
    requires GroupOk(g) && !a.shift && k <= |g| && Pref(g, atEnd) < |g|
    requires pref == g[Pref(g, atEnd)].(suppressed := Flag(g, atEnd, Pref(g, atEnd)))
    ensures Flag(Append(g, a), atEnd, k) ==
      if k == |g| then NewFlag(pref, a, atEnd)
      else if k == Pref(g, atEnd) then PrefFlag(pref, a, atEnd)
      else Flag(g, atEnd, k)
  {
    var h := Append(g, a);
    WinnerAppend(g, a, 1);
    VerdictAppend(g, a, Neither);
    VerdictAppend(g, a, Undecided);
    assert h[0] == g[0];
    assert k < |g| ==> h[k] == g[k];
    assert Compare(pref, a) == Compare(g[Pref(g, atEnd)], a);
    hide WinnerFrom, SomeVerdict, Compare;
  }

  // ----- remove_conflicts -----

  ghost predicate GroupsDone(acts: seq<Action>, row: seq<Action>, isFinal: bool, n: nat) {
    forall lo: nat, hi: nat :: IsGroup(acts, lo, hi) && hi <= n ==> RunFlags(acts, row, isFinal, lo, hi)
  }

  /** After n actions: the finished groups, the run that began at g, and the actions still untouched. */
  ghost predicate Resolving(acts: seq<Action>, row: seq<Action>, isFinal: bool, g: nat, n: nat) {
    && g <= n <= |acts| && SameButFlags(acts, row) && GroupsDone(acts, row, isFinal, g)
    && (forall i: nat :: n <= i < |acts| ==> row[i].suppressed == 0)
    && (g == n ==> n == 0)
    && (g < n ==> IsRun(acts, g, n) && RunFlags(acts, row, isFinal, g, n))
  }

  /** The index of the preferred action of the run. */
  function PrefOf(acts: seq<Action>, isFinal: bool, g: nat, n: nat): nat
    requires g < n <= |acts|
  {
    g + Pref(acts[g..n], isFinal && acts[g].symbol == 0)
  }

  /** The first action of the next group: the run before it is a whole group. */
  lemma NextGroup(acts: seq<Action>, row: seq<Action>, isFinal: bool, g: nat, n: nat)
    requires Resolving(acts, row, isFinal, g, n) && n < |acts| && (g < n ==> acts[n].symbol != acts[g].symbol)
    ensures Resolving(acts, row, isFinal, n, n + 1) && PrefOf(acts, isFinal, n, n + 1) == n
  {
    forall lo: nat, hi: nat | IsGroup(acts, lo, hi) && hi <= n ensures RunFlags(acts, row, isFinal, lo, hi) {
      if hi > g {
        GroupIsRun(acts, g, n, lo, hi);
      }
    }
    assert g < n ==> acts[n - 1].symbol == acts[g].symbol;
    assert |acts[n..n + 1]| == 1;
    assert RunFlags(acts, row, isFinal, n, n + 1);
  }

  lemma RunSymbol(acts: seq<Action>, lo: nat, hi: nat, i: int)
    requires IsRun(acts, lo, hi)
    ensures lo <= i < hi ==> acts[i].symbol == acts[lo].symbol
  {}

  /** A group that shares an action with a run up to a change of token is that run. */
  lemma GroupIsRun(acts: seq<Action>, g: nat, n: nat, lo: nat, hi: nat)
    requires g < n <= |acts| && IsRun(acts, g, n) && IsGroup(acts, lo, hi) && g < hi <= n
    requires n < |acts| ==> acts[n].symbol != acts[g].symbol
    ensures lo == g && hi == n
  {
    RunSymbol(acts, lo, hi, hi - 1);
    RunSymbol(acts, g, n, hi - 1);
    RunSymbol(acts, lo, hi, g - 1);
    RunSymbol(acts, g, n, lo - 1);
    RunSymbol(acts, g, n, hi);
  }

  /** Behind the head of a run there are only reductions. */
  lemma RunHead(acts: seq<Action>, g: nat, n: nat)
    requires Ordered(acts) && IsRun(acts, g, n)
    ensures GroupOk(acts[g..n])
  {
    forall k | 0 < k < n - g ensures !acts[g..n][k].shift {
      assert Precedes(acts[g], acts[g + k]);
    }
  }

  /** The same token again: the two assignments keep all flags right. */
  lemma SameGroup(acts: seq<Action>, row: seq<Action>, isFinal: bool, g: nat, n: nat, pref: nat, row': seq<Action>)
    requires Ordered(acts) && Resolving(acts, row, isFinal, g, n) && g < n < |acts| && acts[n].symbol == acts[g].symbol
    requires pref == PrefOf(acts, isFinal, g, n) < n
    requires var atEnd := isFinal && acts[g].symbol == 0;
      row' == row[n := row[n].(suppressed := NewFlag(row[pref], row[n], atEnd))]
                 [pref := row[pref].(suppressed := PrefFlag(row[pref], row[n], atEnd))]
    ensures Resolving(acts, row', isFinal, g, n + 1)
  {
    assert pref >= g;
    hide Flag, Pref, Compare, NewFlag, PrefFlag;
    assert IsRun(acts, g, n + 1);
    forall i: nat | g <= i < n + 1 ensures row'[i].suppressed == Flag(acts[g..n + 1], isFinal && acts[g].symbol == 0, i - g) {
      RunStep(acts, row, isFinal, g, n, pref, i);
    }
    GroupsKept(acts, row, row', isFinal, g);
  }

  lemma SameFlags(pref: Action, p: Action, p': Action, atEnd: bool)
    requires p.(suppressed := 0) == p'
    ensures NewFlag(pref, p, atEnd) == NewFlag(pref, p', atEnd) && PrefFlag(pref, p, atEnd) == PrefFlag(pref, p', atEnd)
  {}

  lemma RunStep(acts: seq<Action>, row: seq<Action>, isFinal: bool, g: nat, n: nat, pref: nat, i: nat)
    requires Ordered(acts) && Resolving(acts, row, isFinal, g, n) && g <= i <= n < |acts| && g < n && acts[n].symbol == acts[g].symbol
    requires pref == PrefOf(acts, isFinal, g, n) < n
    ensures var atEnd := isFinal && acts[g].symbol == 0;
      Flag(acts[g..n + 1], atEnd, i - g) ==
      if i == n then NewFlag(row[pref], row[n], atEnd) else if i == pref then PrefFlag(row[pref], row[n], atEnd) else row[i].suppressed
  {
    var atEnd := isFinal && acts[g].symbol == 0;
    RunHead(acts, g, n);
    assert IsRun(acts, g, n + 1);
    RunHead(acts, g, n + 1);
    var run := acts[g..n];
    assert acts[g..n + 1] == Append(run, acts[n]);
    assert acts[g..n + 1][n - g] == acts[n];
    assert row[pref].suppressed == Flag(run, atEnd, pref - g);
    var a := run[pref - g].(suppressed := Flag(run, atEnd, pref - g));
    assert row[pref] == a;
    assert row[n].(suppressed := 0) == acts[n];
    var row0 := row[n];
    var flag := if i < n then row[i].suppressed else 0;
    assert i < n ==> flag == Flag(run, atEnd, i - g);
    hide *;
    SameFlags(a, row0, acts[n], atEnd);
    FlagStep(run, acts[n], atEnd, i - g, a);
  }

  lemma GroupsKept(acts: seq<Action>, row: seq<Action>, row': seq<Action>, isFinal: bool, g: nat)
    requires GroupsDone(acts, row, isFinal, g) && |row| == |row'| && forall i: nat :: i < g && i < |row| ==> row'[i] == row[i]
    ensures GroupsDone(acts, row', isFinal, g)
  {
    hide Flag;
    forall lo: nat, hi: nat | IsGroup(acts, lo, hi) && hi <= g ensures RunFlags(acts, row', isFinal, lo, hi) {
      assert RunFlags(acts, row, isFinal, lo, hi);
    }
  }

  /** Where the preferred action is after one more action of the group. */
  lemma PrefMoves(acts: seq<Action>, row: seq<Action>, isFinal: bool, g: nat, n: nat, pref: nat)
    requires Ordered(acts) && Resolving(acts, row, isFinal, g, n) && g < n < |acts| && acts[n].symbol == acts[g].symbol
    requires pref == PrefOf(acts, isFinal, g, n)
    ensures pref < n
    ensures PrefOf(acts, isFinal, g, n + 1) ==
      if !(isFinal && acts[g].symbol == 0) && row[pref].shift && Compare(row[pref], row[n]) == ReduceWins then n else pref
  {
    var atEnd := isFinal && acts[g].symbol == 0;
    RunHead(acts, g, n);
    assert IsRun(acts, g, n + 1);
    RunHead(acts, g, n + 1);
    var run := acts[g..n];
    assert acts[g..n + 1] == Append(run, acts[n]);
    assert acts[g..n + 1][n - g] == acts[n];
    PrefStep(run, acts[n], atEnd);
    assert row[pref].(suppressed := 0) == run[Pref(run, atEnd)];
  }

  /** An action counted as a reduce/reduce conflict: a reduction competes with one before it on its token, where there is
      no shift or that one has won over the shift. */
  ghost predicate ReduceReduce(acts: seq<Action>, isFinal: bool, k: nat) {
    k < |acts| && !AtEnd(acts, isFinal, k) && exists i: nat :: i < k && StandsFor(acts, i, k)
  }

  ghost predicate StandsFor(acts: seq<Action>, i: nat, k: nat)
    requires i < k < |acts|
  {
    && acts[i].symbol == acts[k].symbol && !acts[i].shift
    && forall s: nat :: s < i && acts[s].symbol == acts[i].symbol && acts[s].shift ==> Yields(acts[s], acts[i])
  }

  /** An action counted as a shift/reduce conflict: at the end of input in the final state anything after the first, else
      a reduction that cannot be compared with the shift of its token. */
  ghost predicate ShiftReduce(acts: seq<Action>, isFinal: bool, k: nat) {
    && k < |acts| && !ReduceReduce(acts, isFinal, k)
    && exists s: nat :: s < k && acts[s].symbol == acts[k].symbol &&
         (AtEnd(acts, isFinal, k) || (acts[s].shift && !Comparable(acts[s], acts[k])))
  }

  ghost function ShiftReduces(acts: seq<Action>, isFinal: bool, n: nat): nat {
    if n == 0 then 0 else ShiftReduces(acts, isFinal, n - 1) + if ShiftReduce(acts, isFinal, n - 1) then 1 else 0
  }

  ghost function ReduceReduces(acts: seq<Action>, isFinal: bool, n: nat): nat {
    if n == 0 then 0 else ReduceReduces(acts, isFinal, n - 1) + if ReduceReduce(acts, isFinal, n - 1) then 1 else 0
  }

  /** The first action on a token is no conflict. */
  lemma FirstIsNone(acts: seq<Action>, isFinal: bool, k: nat)
    requires Ordered(acts) && k < |acts| && (k > 0 ==> acts[k - 1].symbol != acts[k].symbol)
    ensures !ShiftReduce(acts, isFinal, k) && !ReduceReduce(acts, isFinal, k)
  {
    forall i: nat | i < k ensures acts[i].symbol != acts[k].symbol {
      SymbolsRise(acts, i, k - 1);
      SymbolsRise(acts, k - 1, k);
    }
  }

  /** What kind of conflict a later one is, the preferred action decides. */
  lemma KindOfConflict(acts: seq<Action>, isFinal: bool, g: nat, k: nat)
    requires Ordered(acts) && g < k < |acts| && IsRun(acts, g, k) && acts[k].symbol == acts[g].symbol
    ensures PrefOf(acts, isFinal, g, k) < k
    ensures ReduceReduce(acts, isFinal, k) <==> !AtEnd(acts, isFinal, k) && !acts[PrefOf(acts, isFinal, g, k)].shift
    ensures ShiftReduce(acts, isFinal, k) <==>
      AtEnd(acts, isFinal, k) || (acts[PrefOf(acts, isFinal, g, k)].shift && !Comparable(acts[PrefOf(acts, isFinal, g, k)], acts[k]))
  {
    var run, p := acts[g..k], PrefOf(acts, isFinal, g, k);
    RunHead(acts, g, k);
    hide WinnerFrom;
    forall i: nat | g < i < k ensures !acts[i].shift && run[i - g] == acts[i] { assert !run[i - g].shift; }
    forall i: nat | i < k && acts[i].symbol == acts[k].symbol ensures g <= i { RunOnly(acts, g, k, i); }
    if acts[g].shift {
      forall i: nat | g < i < k ensures Yields(acts[g], acts[i]) <==> Compare(acts[g], acts[i]) == ReduceWins { ByPrecedence(acts[g], acts[i]); }
      if p != g { assert StandsFor(acts, p, k); }
    } else {
      assert p == g;
      assert StandsFor(acts, g, k);
    }
  }

  lemma NoneCounted(acts: seq<Action>, isFinal: bool)
    ensures ShiftReduces(acts, isFinal, 0) == 0 && ReduceReduces(acts, isFinal, 0) == 0
  {}

  lemma FirstCounts(acts: seq<Action>, row: seq<Action>, isFinal: bool, g: nat, p: nat)
    requires Ordered(acts) && Resolving(acts, row, isFinal, g, p) && p < |acts| && (g < p ==> acts[p].symbol != acts[g].symbol)
    ensures ShiftReduces(acts, isFinal, p + 1) == ShiftReduces(acts, isFinal, p)
    ensures ReduceReduces(acts, isFinal, p + 1) == ReduceReduces(acts, isFinal, p)
  {
    hide GroupsDone, RunFlags, ShiftReduce, ReduceReduce;
    if g < p { assert acts[p - 1].symbol == acts[g].symbol; }
    FirstIsNone(acts, isFinal, p);
  }

  lemma RunOnly(acts: seq<Action>, g: nat, k: nat, i: nat)
    requires Ordered(acts) && g < k < |acts| && IsRun(acts, g, k) && acts[k].symbol == acts[g].symbol && i < k
    ensures acts[i].symbol == acts[k].symbol ==> g <= i
  {
    SymbolsRise(acts, i, g - 1);
    SymbolsRise(acts, g - 1, g);
  }

  /** One of the first n actions is in conflict. */
  ghost predicate SomeConflict(row: seq<Action>, n: nat) { exists i :: 0 <= i < n <= |row| && row[i].suppressed == 1 }

  lemma ConflictStep(row: seq<Action>, n: nat)
    requires n < |row| && row[n].suppressed == 0
    ensures SomeConflict(row, n + 1) <==> SomeConflict(row, n)
  {}

  lemma NoConflictYet(row: seq<Action>)
    ensures !SomeConflict(row, 0)
  {}

  /** The comparisons of remove_conflicts: action p against the preferred one. */
  method Decide(row0: seq<Action>, isFinal: bool, p: nat, pref0: nat, symbol: int, SR0: nat, RR0: nat)
    returns (row: seq<Action>, pref: nat, SRcount: nat, RRcount: nat)
    requires pref0 < p < |row0| && row0[p].suppressed == 0
    ensures var atEnd := isFinal && symbol == 0;
      row == row0[p := row0[p].(suppressed := NewFlag(row0[pref0], row0[p], atEnd))]
                 [pref0 := row0[pref0].(suppressed := PrefFlag(row0[pref0], row0[p], atEnd))]
    ensures pref == if !(isFinal && symbol == 0) && row0[pref0].shift && Compare(row0[pref0], row0[p]) == ReduceWins then p else pref0
    ensures SRcount == SR0 + if (isFinal && symbol == 0) || (row0[pref0].shift && !Comparable(row0[pref0], row0[p])) then 1 else 0
    ensures RRcount == RR0 + if !(isFinal && symbol == 0) && !row0[pref0].shift then 1 else 0
  {
    row, pref, SRcount, RRcount := row0, pref0, SR0, RR0;
    if isFinal && symbol == 0 {
      SRcount := SRcount + 1;
      row := row[p := row[p].(suppressed := 1)];
      if row[pref].suppressed == 0 { row := row[pref := row[pref].(suppressed := 1)]; }
    } else if row[pref].shift {
      if row[pref].prec > 0 && row[p].prec > 0 {
        if row[pref].prec < row[p].prec {
          row := row[pref := row[pref].(suppressed := 2)];
          pref := p;
        } else if row[pref].prec > row[p].prec {
          row := row[p := row[p].(suppressed := 2)];
        } else if row[pref].assoc == LEFT {
          row := row[pref := row[pref].(suppressed := 2)];
          pref := p;
        } else if row[pref].assoc == RIGHT {
          row := row[p := row[p].(suppressed := 2)];
        } else {
          row := row[pref := row[pref].(suppressed := 2)];
          row := row[p := row[p].(suppressed := 2)];
        }
      } else {
        SRcount := SRcount + 1;
        row := row[p := row[p].(suppressed := 1)];
        if row[pref].suppressed == 0 { row := row[pref := row[pref].(suppressed := 1)]; }
      }
    } else {
      RRcount := RRcount + 1;
      row := row[p := row[p].(suppressed := 1)];
      if row[pref].suppressed == 0 { row := row[pref := row[pref].(suppressed := 1)]; }
    }
  }

  /** One more action of the group. */
  method Resolve(ghost acts: seq<Action>, row0: seq<Action>, isFinal: bool, ghost g: nat, p: nat, pref0: nat, symbol: int, SR0: nat, RR0: nat)
    returns (row: seq<Action>, pref: nat, SRcount: nat, RRcount: nat)
    requires Ordered(acts) && Resolving(acts, row0, isFinal, g, p) && g < p < |acts| && acts[p].symbol == acts[g].symbol == symbol
    requires pref0 == PrefOf(acts, isFinal, g, p) && row0[p].suppressed == 0
    requires SR0 + RR0 > 0 <==> SomeConflict(row0, p)
    requires SR0 == ShiftReduces(acts, isFinal, p) && RR0 == ReduceReduces(acts, isFinal, p)
    ensures Resolving(acts, row, isFinal, g, p + 1) && pref == PrefOf(acts, isFinal, g, p + 1) && |row| == |acts|
    ensures SRcount + RRcount > 0 <==> SomeConflict(row, p + 1)
    ensures SRcount == ShiftReduces(acts, isFinal, p + 1) && RRcount == ReduceReduces(acts, isFinal, p + 1)
  {
    hide ReduceReduce, ShiftReduce, Resolving, PrefOf, SomeConflict;
    KindInRow(acts, row0, isFinal, g, p, pref0);
    Untouched(acts, row0, isFinal, g, p);
    PrefMoves(acts, row0, isFinal, g, p, pref0);
    ShiftInConflict(acts, row0, isFinal, g, p, pref0);
    row, pref, SRcount, RRcount := Decide(row0, isFinal, p, pref0, symbol, SR0, RR0);
    SameGroup(acts, row0, isFinal, g, p, pref0, row);
    CountedConflicts(row0, row, p, pref0, SR0 + RR0, SRcount + RRcount);
  }

  lemma KindInRow(acts: seq<Action>, row: seq<Action>, isFinal: bool, g: nat, p: nat, pref: nat)
    requires Ordered(acts) && Resolving(acts, row, isFinal, g, p) && g < p < |acts| && acts[p].symbol == acts[g].symbol
    requires pref == PrefOf(acts, isFinal, g, p)
    ensures pref < p < |row|
    ensures ReduceReduce(acts, isFinal, p) <==> !AtEnd(acts, isFinal, p) && !row[pref].shift
    ensures ShiftReduce(acts, isFinal, p) <==> AtEnd(acts, isFinal, p) || (row[pref].shift && !Comparable(row[pref], row[p]))
  {
    hide GroupsDone, RunFlags, Pref, ReduceReduce, ShiftReduce;
    KindOfConflict(acts, isFinal, g, p);
    assert row[pref].(suppressed := 0) == acts[pref] && row[p].(suppressed := 0) == acts[p];
  }

  /** A shift in conflict is not alone. */
  lemma ShiftInConflict(acts: seq<Action>, row: seq<Action>, isFinal: bool, g: nat, n: nat, pref: nat)
    requires Ordered(acts) && Resolving(acts, row, isFinal, g, n) && g < n && pref == PrefOf(acts, isFinal, g, n) < n
    ensures row[pref].shift && row[pref].suppressed == 1 ==> exists i :: 0 <= i < n && i != pref && row[i].suppressed == 1
  {
    var atEnd := isFinal && acts[g].symbol == 0;
    var run := acts[g..n];
    RunHead(acts, g, n);
    assert row[pref].(suppressed := 0) == run[pref - g];
    if row[pref].shift && row[pref].suppressed == 1 {
      assert pref == g;
      assert row[g].suppressed == Flag(run, atEnd, 0);
      var k: nat := 1;
      if atEnd {
        assert Flag(run, atEnd, k) == 1;
      } else {
        k :| 0 < k < |run| && Compare(run[0], run[k]) == Undecided;
        assert Flag(run, atEnd, k) == 1;
      }
      var i := g + k;
      assert row[i].suppressed == Flag(run, atEnd, i - g);
    }
  }

  lemma CountedConflicts(row: seq<Action>, row': seq<Action>, p: nat, pref: nat, n: nat, n': nat)
    requires pref < p < |row| == |row'| && (n > 0 <==> SomeConflict(row, p))
    requires forall i: nat :: i < p && i != pref ==> row'[i] == row[i]
    requires row'[p].suppressed == 1 ==> n' > 0
    requires row'[p].suppressed != 1 ==> n' == n && (row'[pref].suppressed == 1 ==> row[pref].suppressed == 1)
    requires row[pref].suppressed == 1 ==> row'[pref].suppressed == 1 || exists i :: 0 <= i < p && i != pref && row[i].suppressed == 1
    ensures n' > 0 <==> SomeConflict(row', p + 1)
  {
    if n > 0 && row'[p].suppressed != 1 {
      var i :| 0 <= i < p && row[i].suppressed == 1;
      if i == pref && row'[pref].suppressed != 1 {
        var j :| 0 <= j < p && j != pref && row[j].suppressed == 1;
        assert row'[j].suppressed == 1;
      } else {
        assert row'[i].suppressed == 1;
      }
    }
  }

  lemma NoneResolved(acts: seq<Action>, isFinal: bool)
    requires forall i :: 0 <= i < |acts| ==> acts[i].suppressed == 0
    ensures Resolving(acts, acts, isFinal, 0, 0)
  {}

  lemma Untouched(acts: seq<Action>, row: seq<Action>, isFinal: bool, g: nat, n: nat)
    requires Resolving(acts, row, isFinal, g, n)
    ensures g <= n <= |row| == |acts| && (n < |acts| ==> row[n].symbol == acts[n].symbol && row[n].suppressed == 0)
  {}

  /** remove_conflicts, for one state: the flags, and whether any conflict was counted. */
  method RemoveConflicts(acts: seq<Action>, isFinal: bool) returns (row: seq<Action>, SRcount: nat, RRcount: nat)
    requires Ordered(acts) && forall i :: 0 <= i < |acts| ==> acts[i].suppressed == 0
    ensures Flagged(acts, row, isFinal) && PairsDecided(acts, row, isFinal)
    ensures SRcount + RRcount > 0 <==> SomeConflict(row, |row|)
    ensures SRcount == ShiftReduces(acts, isFinal, |acts|) && RRcount == ReduceReduces(acts, isFinal, |acts|)
  {
    hide *;
    NoneResolved(acts, isFinal);
    NoConflictYet(acts);
    NoneCounted(acts, isFinal);
    SRcount, RRcount := 0, 0;
    var symbol: int := -1;
    var pref: nat := 0;
    row := acts;
    ghost var g: nat := 0;
    var p: nat := 0;
    while p < |row|
      invariant g <= p <= |row| == |acts| && Resolving(acts, row, isFinal, g, p)
      invariant if g == p then symbol == -1 else symbol == acts[g].symbol && pref == PrefOf(acts, isFinal, g, p)
      invariant SRcount + RRcount > 0 <==> SomeConflict(row, p)
      invariant SRcount == ShiftReduces(acts, isFinal, p) && RRcount == ReduceReduces(acts, isFinal, p)
    {
      Untouched(acts, row, isFinal, g, p);
      if row[p].symbol != symbol {
        NextGroup(acts, row, isFinal, g, p);
        ConflictStep(row, p);
        FirstCounts(acts, row, isFinal, g, p);
        pref := p;
        symbol := row[p].symbol;
        g := p;
      } else {
        row, pref, SRcount, RRcount := Resolve(acts, row, isFinal, g, p, pref, symbol, SRcount, RRcount);
      }
      p := p + 1;
      Untouched(acts, row, isFinal, g, p);
    }
    AllDone(acts, row, isFinal, g);
    FlagsDecidePairs(acts, row, isFinal);
  }

  lemma AllDone(acts: seq<Action>, row: seq<Action>, isFinal: bool, g: nat)
    requires Resolving(acts, row, isFinal, g, |acts|)
    ensures Flagged(acts, row, isFinal)
  {
    forall lo: nat, hi: nat | IsGroup(acts, lo, hi) ensures RunFlags(acts, row, isFinal, lo, hi) {
      if hi > g { GroupIsRun(acts, g, |acts|, lo, hi); }
    }
  }

  // ----- What the flags mean -----

  /** The group of an action. */
  lemma {:induction false} GroupFrom(acts: seq<Action>, i: nat) returns (lo: nat)
    requires i < |acts|
    ensures lo <= i && IsRun(acts, lo, i + 1)
    decreases i
  {
    if i == 0 || acts[i - 1].symbol != acts[i].symbol { lo := i; } else { lo := GroupFrom(acts, i - 1); }
  }

  lemma {:induction false} GroupTo(acts: seq<Action>, lo: nat, i: nat) returns (hi: nat)
    requires IsRun(acts, lo, i)
    ensures i <= hi && IsGroup(acts, lo, hi)
    decreases |acts| - i
  {
    if i == |acts| || acts[i].symbol != acts[lo].symbol { hi := i; } else { hi := GroupTo(acts, lo, i + 1); }
  }

  /** In an ordered list all actions on a token are in one group. */
  lemma GroupOf(acts: seq<Action>, i: nat) returns (lo: nat, hi: nat)
    requires Ordered(acts) && i < |acts|
    ensures lo <= i < hi && IsGroup(acts, lo, hi)
    ensures forall j :: 0 <= j < |acts| && acts[j].symbol == acts[i].symbol ==> lo <= j < hi
  {
    lo := GroupFrom(acts, i);
    hi := GroupTo(acts, lo, i + 1);
    forall j | 0 <= j < |acts| && acts[j].symbol == acts[i].symbol ensures lo <= j < hi {
      SymbolsRise(acts, j, lo - 1);
      SymbolsRise(acts, lo - 1, lo);
      SymbolsRise(acts, hi - 1, hi);
      SymbolsRise(acts, hi, j);
    }
  }

  lemma SymbolsRise(acts: seq<Action>, i: int, j: int)
    requires Ordered(acts)
    ensures 0 <= i <= j < |acts| ==> acts[i].symbol <= acts[j].symbol
  {
    assert 0 <= i < j < |acts| ==> Precedes(acts[i], acts[j]);
  }

  /** The flag of an action by its group. */
  lemma FlagOf(acts: seq<Action>, row: seq<Action>, isFinal: bool, i: nat) returns (lo: nat, hi: nat)
    requires Ordered(acts) && Flagged(acts, row, isFinal) && i < |acts|
    ensures lo <= i < hi && IsGroup(acts, lo, hi) && GroupOk(acts[lo..hi])
    ensures forall j :: 0 <= j < |acts| && acts[j].symbol == acts[i].symbol ==> lo <= j < hi
    ensures forall j: nat :: lo <= j < hi ==> row[j].suppressed == Flag(acts[lo..hi], isFinal && acts[i].symbol == 0, j - lo)
  {
    lo, hi := GroupOf(acts, i);
    RunHead(acts, lo, hi);
    assert RunFlags(acts, row, isFinal, lo, hi);
  }

  /** No two actions of a state on the same token are in force. */
  lemma OneInForce(acts: seq<Action>, row: seq<Action>, isFinal: bool, i: nat, j: nat)
    requires Ordered(acts) && Flagged(acts, row, isFinal) && i < j < |acts| && acts[i].symbol == acts[j].symbol
    ensures row[i].suppressed > 0 || row[j].suppressed > 0
  {
    var lo, hi := FlagOf(acts, row, isFinal, i);
    FlagsDiffer(acts[lo..hi], isFinal && acts[i].symbol == 0, i - lo, j - lo);
  }

  lemma FlagsDiffer(g: seq<Action>, atEnd: bool, i: nat, j: nat)
    requires i < j < |g|
    ensures Flag(g, atEnd, i) > 0 || Flag(g, atEnd, j) > 0
  {}

  /** When no comparison of precedences is possible, an action stays in force exactly if it is the only one on its
      token; all others are in conflict, none is dropped. */
  lemma WithoutPrecedence(acts: seq<Action>, row: seq<Action>, isFinal: bool, i: nat)
    requires Ordered(acts) && Flagged(acts, row, isFinal) && i < |acts|
    requires forall k :: 0 <= k < |acts| && !acts[k].shift ==> acts[k].prec <= 0
    ensures row[i].suppressed == if exists j :: 0 <= j < |acts| && j != i && acts[j].symbol == acts[i].symbol then 1 else 0
  {
    var lo, hi := FlagOf(acts, row, isFinal, i);
    var g := acts[lo..hi];
    forall k | 0 < k < |g| ensures Compare(g[0], g[k]) == Undecided {
      assert !g[k].shift && g[k] == acts[lo + k];
    }
    if |g| > 1 {
      assert Compare(g[0], g[1]) == Undecided;
      var j := if i == lo then lo + 1 else lo;
      assert j != i && acts[j].symbol == acts[i].symbol;
    }
  }

  /** More generally: if remove_conflicts has dropped nothing, its flags say who is alone. */
  lemma NothingDropped(acts: seq<Action>, row: seq<Action>, isFinal: bool, i: nat)
    requires Ordered(acts) && Flagged(acts, row, isFinal) && i < |acts|
    requires forall k :: 0 <= k < |row| ==> row[k].suppressed != 2
    ensures row[i].suppressed == if exists j :: 0 <= j < |acts| && j != i && acts[j].symbol == acts[i].symbol then 1 else 0
  {
    var lo, hi := FlagOf(acts, row, isFinal, i);
    var g, atEnd := acts[lo..hi], isFinal && acts[i].symbol == 0;
    if |g| > 1 {
      forall k: nat | k < |g| ensures Flag(g, atEnd, k) != 2 {
        assert row[lo + k].suppressed == Flag(g, atEnd, lo + k - lo);
      }
      AllUndecided(g, atEnd, i - lo);
      var j := if i == lo then lo + 1 else lo;
      assert j != i && acts[j].symbol == acts[i].symbol;
    }
  }

  lemma AllUndecided(g: seq<Action>, atEnd: bool, k: nat)
    requires GroupOk(g) && |g| > 1 && k < |g| && forall j: nat :: j < |g| ==> Flag(g, atEnd, j) != 2
    ensures Flag(g, atEnd, k) == 1
  {
    assert Flag(g, atEnd, 0) != 2;
    if !atEnd && g[0].shift {
      assert Winner(g) == |g|;
      assert Flag(g, atEnd, 1) != 2;
      assert Compare(g[0], g[1]) == Undecided;
      assert SomeVerdict(g, Undecided);
    }
  }

  /** An action in force next to one in conflict: a shift, a reduction without precedence and a reduction that wins
      over the shift, on one token. The driver then tries only what is in conflict. */
  lemma MixedGroup()
    ensures var g := [Action(1, 5, 1, true, LEFT, 0), Action(1, 3, 0, false, TOKEN, 0), Action(1, 4, 2, false, LEFT, 0)];
      Flag(g, false, 0) == 2 && Flag(g, false, 1) == 1 && Flag(g, false, 2) == 0
  {
    var g := [Action(1, 5, 1, true, LEFT, 0), Action(1, 3, 0, false, TOKEN, 0), Action(1, 4, 2, false, LEFT, 0)];
    assert Compare(g[0], g[1]) == Undecided && Compare(g[0], g[2]) == ReduceWins;
    assert WinnerFrom(g, 2) == 2;
  }

  // ----- What the flags mean, by precedence and associativity alone -----

  /** Some reduction before action k has won over the shift of its token. */
  ghost predicate WonBefore(acts: seq<Action>, s: nat, k: nat) {
    exists j: nat :: s < j < k && Rivals(acts, s, j) && Yields(acts[s], acts[j])
  }

  /** The group of a shift: the shift is its head. */
  lemma ShiftGroup(acts: seq<Action>, row: seq<Action>, isFinal: bool, s: nat) returns (hi: nat)
    requires Ordered(acts) && Flagged(acts, row, isFinal) && s < |acts| && acts[s].shift
    ensures s < hi <= |acts| && forall j: nat :: s < j < hi <==> Rivals(acts, s, j)
    ensures forall j: nat :: s < j < hi ==> !acts[j].shift
    ensures forall j: nat :: s <= j < hi ==> row[j].suppressed == Flag(acts[s..hi], AtEnd(acts, isFinal, s), j - s)
  {
    hide Flag;
    var lo;
    lo, hi := FlagOf(acts, row, isFinal, s);
    assert s == lo by { assert acts[lo..hi][s - lo] == acts[s]; }
    forall j: nat | s < j < hi ensures !acts[j].shift {
      assert acts[lo..hi][j - lo] == acts[j];
    }
  }

  lemma WinnerMeans(acts: seq<Action>, s: nat, hi: nat, k: nat)
    requires s < k <= hi <= |acts| && forall j: nat :: s < j < hi ==> Rivals(acts, s, j)
    ensures s + Winner(acts[s..hi]) < k <==> WonBefore(acts, s, k)
  {
    var g := acts[s..hi];
    var w := s + Winner(g);
    if w < k {
      ByPrecedence(acts[s], acts[w]);
      assert Rivals(acts, s, w);
    }
    if WonBefore(acts, s, k) {
      var j: nat :| s < j < k && Rivals(acts, s, j) && Yields(acts[s], acts[j]);
      ByPrecedence(acts[s], acts[j]);
      assert g[j - s] == acts[j];
    }
  }

  /** A shift is in force if and only if it is alone or outranks all its rivals, and is dropped if and only if it yields
      to one of them or neither is to happen. */
  lemma ShiftFlag(acts: seq<Action>, row: seq<Action>, isFinal: bool, s: nat)
    requires Ordered(acts) && Flagged(acts, row, isFinal) && s < |acts| && acts[s].shift
    ensures |row| == |acts|
    ensures row[s].suppressed == 0 <==> forall j: nat :: Rivals(acts, s, j) ==> !AtEnd(acts, isFinal, s) && Outranks(acts[s], acts[j])
    ensures row[s].suppressed == 2 <==>
      !AtEnd(acts, isFinal, s) && exists j: nat :: Rivals(acts, s, j) && Comparable(acts[s], acts[j]) && !Outranks(acts[s], acts[j])
    ensures row[s].suppressed <= 2
  {
    var hi := ShiftGroup(acts, row, isFinal, s);
    var g := acts[s..hi];
    hide WinnerFrom;
    forall j: nat | s < j < hi ensures g[j - s] == acts[j] && Rivals(acts, s, j) { ByPrecedence(acts[s], acts[j]); }
    if s + Winner(g) < hi {
      var w := s + Winner(g);
      ByPrecedence(acts[s], acts[w]);
    }
    forall v: Verdict | SomeVerdict(g, v) ensures exists j: nat :: s < j < hi && Compare(acts[s], acts[j]) == v {
      var k :| 0 < k < |g| && Compare(g[0], g[k]) == v;
      assert Compare(acts[s], acts[s + k]) == v;
    }
    forall j: nat | s < j < hi ensures SomeVerdict(g, Compare(acts[s], acts[j])) {
      assert Compare(g[0], g[j - s]) == Compare(acts[s], acts[j]);
    }
  }

  /** A reduction with a rival shift is in force if and only if the shift yields to it, to none before it, and it is the
      last on its token; it is dropped if and only if the shift outranks it, or neither is to happen, and none before it
      has won. */
  lemma ReductionFlag(acts: seq<Action>, row: seq<Action>, isFinal: bool, s: nat, r: nat)
    requires Ordered(acts) && Flagged(acts, row, isFinal) && Rivals(acts, s, r) && acts[s].shift
    ensures |row| == |acts| && s < r && !acts[r].shift
    ensures row[r].suppressed == 0 <==>
      !AtEnd(acts, isFinal, s) && Yields(acts[s], acts[r]) && forall j: nat :: Rivals(acts, s, j) && j != r ==> j < r && !Yields(acts[s], acts[j])
    ensures row[r].suppressed == 2 <==>
      !AtEnd(acts, isFinal, s) && Comparable(acts[s], acts[r]) && !Yields(acts[s], acts[r]) && !WonBefore(acts, s, r)
    ensures row[r].suppressed <= 2
  {
    var hi := ShiftGroup(acts, row, isFinal, s);
    var g := acts[s..hi];
    assert row[r].suppressed == Flag(g, AtEnd(acts, isFinal, s), r - s);
    WinnerMeans(acts, s, hi, r);
    ByPrecedence(acts[s], acts[r]);
    assert g[r - s] == acts[r];
    hide WinnerFrom, SomeVerdict, Compare;
    if r + 1 < hi { assert Rivals(acts, s, r + 1); }
  }

  /** A token with one shift and one reduction. */
  ghost predicate IsPair(acts: seq<Action>, isFinal: bool, s: nat, r: nat) {
    && Rivals(acts, s, r) && acts[s].shift && !AtEnd(acts, isFinal, s)
    && forall j: nat :: Rivals(acts, s, j) ==> j == r
  }

  /** The higher precedence wins; equal precedences are decided by associativity; without precedences both stay. */
  ghost predicate PairsDecided(acts: seq<Action>, row: seq<Action>, isFinal: bool) {
    |row| == |acts| && forall s: nat, r: nat :: IsPair(acts, isFinal, s, r) ==>
      && (acts[s].prec > 0 && acts[r].prec > 0 && acts[s].prec > acts[r].prec ==> row[s].suppressed == 0 && row[r].suppressed == 2)
      && (acts[s].prec > 0 && acts[r].prec > 0 && acts[s].prec < acts[r].prec ==> row[s].suppressed == 2 && row[r].suppressed == 0)
      && (acts[s].prec > 0 && acts[s].prec == acts[r].prec && acts[s].assoc == LEFT ==> row[s].suppressed == 2 && row[r].suppressed == 0)
      && (acts[s].prec > 0 && acts[s].prec == acts[r].prec && acts[s].assoc == RIGHT ==> row[s].suppressed == 0 && row[r].suppressed == 2)
      && (acts[s].prec > 0 && acts[s].prec == acts[r].prec && acts[s].assoc != LEFT && acts[s].assoc != RIGHT ==>
            row[s].suppressed == 2 && row[r].suppressed == 2)
      && (acts[s].prec <= 0 || acts[r].prec <= 0 ==> row[s].suppressed == 1 && row[r].suppressed == 1)
  }

  lemma FlagsDecidePairs(acts: seq<Action>, row: seq<Action>, isFinal: bool)
    requires Ordered(acts) && Flagged(acts, row, isFinal)
    ensures PairsDecided(acts, row, isFinal)
  {
    SameLength(acts, row, isFinal);
    hide Flagged, Ordered;
    forall s: nat, r: nat | IsPair(acts, isFinal, s, r)
      ensures row[s].suppressed == (if Outranks(acts[s], acts[r]) then 0 else if Comparable(acts[s], acts[r]) then 2 else 1)
      ensures row[r].suppressed == (if Yields(acts[s], acts[r]) then 0 else if Comparable(acts[s], acts[r]) then 2 else 1)
    {
      ShiftFlag(acts, row, isFinal, s);
      ReductionFlag(acts, row, isFinal, s, r);
    }
  }

  lemma SameLength(acts: seq<Action>, row: seq<Action>, isFinal: bool)
    requires Flagged(acts, row, isFinal)
    ensures |row| == |acts|
  {}

  /** A reduction that its rival shift outranks is never in force, however many others compete. */
  lemma OutrankedIsOut(acts: seq<Action>, row: seq<Action>, isFinal: bool, s: nat, r: nat)
    requires Ordered(acts) && Flagged(acts, row, isFinal) && Rivals(acts, s, r) && acts[s].shift && acts[s].prec > acts[r].prec
    ensures |row| == |acts| && row[r].suppressed != 0
  {
    ReductionFlag(acts, row, isFinal, s, r);
  }

  // ----- Default reductions -----

  /** Everything a state can still do is to reduce by rule r, and not only on the error token. */
  ghost predicate SolelyReduces(row: seq<Action>, n: nat, r: nat) {
    && n <= |row|
    && (forall i :: 0 <= i < n && row[i].suppressed <= 1 ==> !row[i].shift && row[i].number == r)
    && exists i :: 0 <= i < n && row[i].suppressed <= 1 && row[i].symbol != 1
  }

  /** sole_reduction: the rule, if there is one; 0 otherwise. */
  method SoleReduction(row: seq<Action>) returns (ruleno: nat)
    requires forall i :: 0 <= i < |row| ==> row[i].number > 0
    ensures ruleno != 0 ==> SolelyReduces(row, |row|, ruleno)
    ensures ruleno == 0 ==> forall r :: !SolelyReduces(row, |row|, r)
  {
    var count := 0;
    ruleno := 0;
    var p := 0;
    while p < |row|
      invariant p <= |row|
      invariant forall i :: 0 <= i < p && row[i].suppressed <= 1 ==> !row[i].shift && row[i].number == ruleno
      invariant ruleno > 0 <==> exists i :: 0 <= i < p && row[i].suppressed <= 1
      invariant count > 0 <==> exists i :: 0 <= i < p && row[i].suppressed <= 1 && row[i].symbol != 1
    {
      if row[p].shift && row[p].suppressed <= 1 {
        return 0;
      } else if !row[p].shift && row[p].suppressed <= 1 {
        if ruleno > 0 && row[p].number != ruleno { return 0; }
        if row[p].symbol != 1 { count := count + 1; }
        ruleno := row[p].number;
      }
      p := p + 1;
    }
    if count == 0 { return 0; }
  }
}
