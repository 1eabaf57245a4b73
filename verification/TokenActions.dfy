/** The token rows of one state (output.c, token_actions): shifts, reductions and conflicts. */
module TokenActions {
  import opened Actions
  import opened ConflictTable

  // ----- The list of one conflict -----

  predicate Conflicting(a: Action, x: int) { a.symbol == x && a.suppressed == 1 }

  /** The conflicting actions on token x among the first n, without the default reduction d. */
  function Ones(row: seq<Action>, d: nat, x: int, n: nat): (s: seq<Action>)
    requires n <= |row|
  {
    if n == 0 then []
    else
      var a := row[n - 1];
      if Conflicting(a, x) && (a.shift || a.number != d) then Ones(row, d, x, n - 1) + [a] else Ones(row, d, x, n - 1)
  }

  function Reds(ones: seq<Action>): (s: seq<int>) {
    seq(|ones|, k requires 0 <= k < |ones| => ones[k].number - 2)
  }

  /** The list without its end: a shift target or -1, then the reductions as the driver numbers them. */
  function Open(ones: seq<Action>): seq<int> {
    if ones == [] then [] else if ones[0].shift then [ones[0].number] + Reds(ones[1..]) else [-1] + Reds(ones)
  }

  function Entry(ones: seq<Action>): seq<int> { Open(ones) + [-1] }

  lemma OpenAppend(ones: seq<Action>, a: Action)
    ensures ones == [] && a.shift ==> Open(ones + [a]) == [a.number]
    ensures ones == [] && !a.shift ==> Open(ones + [a]) == [-1, a.number - 2]
    ensures ones != [] ==> Open(ones + [a]) == Open(ones) + [a.number - 2]
  {
    var s := ones + [a];
    if ones != [] && ones[0].shift {
      assert s[1..] == ones[1..] + [a];
      assert Reds(s[1..]) == Reds(ones[1..]) + [a.number - 2];
    }
    if ones != [] && !ones[0].shift { assert Reds(s) == Reds(ones) + [a.number - 2]; }
  }

  /** Actions as the parser's lists hold them: at most the first on a token is a shift, rules begin at 3. */
  ghost predicate Proper(row: seq<Action>, nt: nat) {
    && Ordered(row)
    && forall i :: 0 <= i < |row| ==> row[i].symbol < nt && row[i].number > (if row[i].shift then 0 else 2)
  }

  lemma {:induction false} OnesProper(row: seq<Action>, nt: nat, d: nat, x: int, n: nat)
    requires Proper(row, nt) && n <= |row|
    ensures forall a :: a in Ones(row, d, x, n) ==> a in row[..n] && a.symbol == x
    ensures forall k :: 0 < k < |Ones(row, d, x, n)| ==> !Ones(row, d, x, n)[k].shift
    ensures IsList(Entry(Ones(row, d, x, n)))
    decreases n
  {
    hide Open, Reds, Entry, IsList;
    if n == 0 {
      EntryEmpty();
    } else {
      OnesProper(row, nt, d, x, n - 1);
      var ones, a := Ones(row, d, x, n - 1), row[n - 1];
      assert row[..n] == row[..n - 1] + [a];
      if Conflicting(a, x) && a.shift {
        ShiftFirst(row, nt, n - 1);
        NoOnes(row, d, x, n - 1);
      }
      if Conflicting(a, x) { EntryGrows(ones, a); }
    }
  }

  /** Of the alternatives at a conflict the shift comes first, then come the reductions in the order of their rules. */
  lemma {:induction false} AlternativesRise(row: seq<Action>, nt: nat, d: nat, x: int, n: nat)
    requires Proper(row, nt) && n <= |row|
    ensures var ent := Entry(Ones(row, d, x, n)); forall k, l :: 0 < k < l < |ent| - 1 ==> ent[k] < ent[l]
  {
    hide Ones, Proper;
    OnesProper(row, nt, d, x, n);
    OnesRise(row, nt, d, x, n);
    var ones := Ones(row, d, x, n);
    if ones != [] && ones[0].shift {
      assert forall k :: 0 < k < |ones| ==> Entry(ones)[k] == ones[k].number - 2;
    } else if ones != [] {
      assert forall k :: 0 < k <= |ones| ==> Entry(ones)[k] == ones[k - 1].number - 2;
    }
  }

  lemma {:induction false} OnesRise(row: seq<Action>, nt: nat, d: nat, x: int, n: nat)
    requires Proper(row, nt) && n <= |row|
    ensures Ordered(Ones(row, d, x, n))
    ensures forall a :: a in Ones(row, d, x, n) ==> a in row[..n]
    decreases n
  {
    if n > 0 {
      OnesRise(row, nt, d, x, n - 1);
      assert row[..n] == row[..n - 1] + [row[n - 1]];
      var rest := Ones(row, d, x, n - 1);
      forall i | 0 <= i < |rest| ensures Precedes(rest[i], row[n - 1]) { assert rest[i] in row[..n - 1]; }
    }
  }

  lemma EntryEmpty()
    ensures IsList(Entry([]))
  {}

  lemma EntryGrows(ones: seq<Action>, a: Action)
    requires IsList(Entry(ones)) && (a.shift ==> ones == []) && a.number > (if a.shift then 0 else 2)
    ensures IsList(Entry(ones + [a]))
  {
    hide Reds, Open;
    OpenAppend(ones, a);
    OpenEmpty(ones);
    var u, v := Entry(ones), Entry(ones + [a]);
    forall k | 0 < k < |v| - 1 ensures v[k] >= 0 {
      if k < |u| - 1 { assert v[k] == u[k]; }
    }
  }

  /** A shift comes first on its token. */
  lemma ShiftFirst(row: seq<Action>, nt: nat, p: nat)
    requires Proper(row, nt) && p < |row| && row[p].shift
    ensures NoConflict(row, p, row[p].symbol)
  {
    forall i | 0 <= i < p ensures row[i].symbol < row[p].symbol {
      assert Precedes(row[i], row[p]);
    }
  }

  /** The list of token x is under construction. */
  ghost predicate InList(keep: seq<int>, conf: seq<int>, cbase: nat, ones: seq<Action>) {
    Begun(keep, conf, cbase) && conf[cbase..] == Open(ones)
  }

  /** One more action in conflict. */
  method AddToList(ghost keep: seq<int>, conf0: seq<int>, cbase0: nat, ghost ones: seq<Action>, a: Action, d: nat) returns (conf: seq<int>, cbase: nat)
    requires InList(keep, conf0, cbase0, ones) && (a.shift ==> ones == [])
    ensures InList(keep, conf, cbase, if a.shift || a.number != d then ones + [a] else ones)
  {
    hide Reds, Open;
    OpenAppend(ones, a);
    OpenEmpty(ones);
    conf, cbase := conf0, cbase0;
    assert ones == [] <==> cbase == |conf|;
    if a.shift {
      conf := conf + [a.number];
      assert conf[cbase..] == [a.number];
    } else if a.number != d {
      if cbase == |conf| {
        if cbase > 0 { cbase := cbase - 1; } else { conf := conf + [-1]; }
        assert conf[cbase..] == [-1];
      }
      ghost var was := conf;
      conf := conf + [a.number - 2];
      assert conf[cbase..] == was[cbase..] + [a.number - 2];
    }
  }

  lemma OpenEmpty(ones: seq<Action>)
    ensures Open(ones) == [] <==> ones == []
  {}

  // ----- The cells of actionrow -----

  predicate Live(a: Action, d: nat, x: int, sh: bool) {
    a.symbol == x && a.shift == sh && a.suppressed == 0 && (sh || a.number != d)
  }

  /** A cell of the shift or reduction part. */
  ghost predicate ForceCell(row: seq<Action>, d: nat, p: nat, x: nat, sh: bool, v: int) {
    && p <= |row|
    && (v != 0 ==> exists i :: 0 <= i < p && Live(row[i], d, x, sh) && row[i].number == v)
    && (v == 0 ==> forall i :: 0 <= i < p ==> !Live(row[i], d, x, sh))
  }

  /** A cell of the conflict part: one more than where the list of its token is. */
  ghost predicate ConfCell(row: seq<Action>, d: nat, p: nat, x: nat, conf: seq<int>, v: int) {
    && p <= |row|
    && (v != 0 ==> (exists i :: 0 <= i < p && Conflicting(row[i], x)) && EntryAt(conf, v - 1, Entry(Ones(row, d, x, p))))
    && (v == 0 ==> NoConflict(row, p, x))
  }

  ghost predicate NoConflict(row: seq<Action>, p: nat, x: int) {
    p <= |row| && forall i :: 0 <= i < p ==> !Conflicting(row[i], x)
  }

  /** actionrow holds the shift part, the reduction part and the conflict part one after the other. */
  function Part(cells: seq<int>, nt: nat, part: nat, x: nat): int
    requires part < 3 && x < nt && |cells| == 3 * nt
  {
    if part == 0 then cells[x] else if part == 1 then cells[nt + x] else cells[2 * nt + x]
  }

  ghost predicate Cells(row: seq<Action>, d: nat, nt: nat, p: nat, cells: seq<int>, conf: seq<int>, csym: int) {
    && |cells| == 3 * nt
    && forall x: nat :: x < nt ==> CellsAt(row, d, nt, p, cells, conf, csym, x)
  }

  ghost predicate CellsAt(row: seq<Action>, d: nat, nt: nat, p: nat, cells: seq<int>, conf: seq<int>, csym: int, x: nat)
    requires |cells| == 3 * nt && x < nt
  {
    && ForceCell(row, d, p, x, true, Part(cells, nt, 0, x))
    && ForceCell(row, d, p, x, false, Part(cells, nt, 1, x))
    && (if x == csym then Part(cells, nt, 2, x) == 0 else ConfCell(row, d, p, x, conf, Part(cells, nt, 2, x)))
  }

  /** Where the scan of a state is. */
  ghost predicate Scanning(row: seq<Action>, nt: nat, d: nat, p: nat, keep: seq<int>, conf: seq<int>, cbase: nat, csym: int) {
    && Proper(row, nt) && p <= |row|
    && (csym == -1 ==> conf == keep && cbase == |conf| && Whole(conf) && (p > 0 ==> NoConflict(row, p, row[p - 1].symbol)))
    && (csym != -1 ==> p > 0 && csym == row[p - 1].symbol && InList(keep, conf, cbase, Ones(row, d, csym, p))
                       && exists i :: 0 <= i < p && Conflicting(row[i], csym))
  }

  // ----- Steps of the scan -----

  lemma OnesStep(row: seq<Action>, d: nat, x: int, p: nat)
    requires p < |row| && row[p].symbol != x
    ensures Ones(row, d, x, p + 1) == Ones(row, d, x, p)
  {}

  /** Closing a list: its token gets its cell. */
  lemma CellsClosed(row: seq<Action>, d: nat, nt: nat, p: nat, cells: seq<int>, keep: seq<int>, csym: nat, conf: seq<int>, j: nat, cells': seq<int>)
    requires Cells(row, d, nt, p, cells, keep, csym) && keep <= conf && csym < nt && p <= |row|
    requires EntryAt(conf, j, Entry(Ones(row, d, csym, p))) && exists i :: 0 <= i < p && Conflicting(row[i], csym)
    requires cells' == cells[2 * nt + csym := j + 1]
    ensures Cells(row, d, nt, p, cells', conf, -1)
  {
    hide ForceCell, EntryAt, Entry;
    forall x: nat | x < nt ensures CellsAt(row, d, nt, p, cells', conf, -1, x) {
      assert CellsAt(row, d, nt, p, cells, keep, csym, x);
      if x != csym && Part(cells, nt, 2, x) != 0 {
        EntryStays(keep, conf, Part(cells, nt, 2, x) - 1, Entry(Ones(row, d, x, p)));
      }
    }
  }

  /** One action: the cells after it, in terms of those before. */
  lemma CellsStep(row: seq<Action>, d: nat, nt: nat, p: nat, cells: seq<int>, conf: seq<int>, csym: int, csym': int, cells': seq<int>)
    requires Proper(row, nt) && p < |row| && Cells(row, d, nt, p, cells, conf, csym)
    requires csym == -1 || csym == row[p].symbol
    requires csym == -1 ==> NoConflict(row, p, row[p].symbol)
    requires csym' == if row[p].suppressed == 1 then row[p].symbol else csym
    requires var a := row[p];
      cells' == if a.suppressed != 0 then cells
                else if a.shift then cells[a.symbol := a.number]
                else if a.number != d then cells[nt + a.symbol := a.number] else cells
    ensures Cells(row, d, nt, p + 1, cells', conf, csym')
  {
    var a, p' := row[p], p + 1;
    hide ForceCell, Proper, EntryAt, ConfCell, NoConflict;
    forall x: nat | x < nt ensures CellsAt(row, d, nt, p', cells', conf, csym', x) {
      assert CellsAt(row, d, nt, p, cells, conf, csym, x);
      ForceStep(row, d, p, x, true, Part(cells, nt, 0, x), Part(cells', nt, 0, x));
      ForceStep(row, d, p, x, false, Part(cells, nt, 1, x), Part(cells', nt, 1, x));
      if x != a.symbol {
        ConfStep(row, d, p, x, conf, Part(cells, nt, 2, x));
      } else if csym == -1 {
        assert Part(cells, nt, 2, x) == 0;
      }
    }
  }

  lemma ForceStep(row: seq<Action>, d: nat, p: nat, x: nat, sh: bool, v: int, v': int)
    requires p < |row| && ForceCell(row, d, p, x, sh, v) && row[p].number != 0
    requires v' == if Live(row[p], d, x, sh) then row[p].number else v
    ensures ForceCell(row, d, p + 1, x, sh, v')
  {
    if Live(row[p], d, x, sh) { assert 0 <= p < p + 1; }
  }

  lemma ConfStep(row: seq<Action>, d: nat, p: nat, x: nat, conf: seq<int>, v: int)
    requires p < |row| && row[p].symbol != x && ConfCell(row, d, p, x, conf, v)
    ensures ConfCell(row, d, p + 1, x, conf, v)
  {
    OnesStep(row, d, x, p);
  }

  /** Before the first conflicting action of a token there is none. */
  lemma NoneYet(row: seq<Action>, nt: nat, d: nat, p: nat, keep: seq<int>, conf: seq<int>, cbase: nat)
    requires p < |row| && Scanning(row, nt, d, p, keep, conf, cbase, -1)
    ensures NoConflict(row, p, row[p].symbol) && Ones(row, d, row[p].symbol, p) == []
  {
    NoneMeans(row, nt, p);
    NoOnes(row, d, row[p].symbol, p);
  }

  lemma NoneMeans(row: seq<Action>, nt: nat, p: nat)
    requires p < |row| && Proper(row, nt) && (p > 0 ==> NoConflict(row, p, row[p - 1].symbol))
    ensures NoConflict(row, p, row[p].symbol)
  {
    if p > 0 {
      assert Precedes(row[p - 1], row[p]);
      forall i | 0 <= i < p ensures row[i].symbol <= row[p - 1].symbol {
        assert i < p - 1 ==> Precedes(row[i], row[p - 1]);
      }
    }
  }

  lemma {:induction false} NoOnes(row: seq<Action>, d: nat, x: int, p: nat)
    requires NoConflict(row, p, x)
    ensures p <= |row| && Ones(row, d, x, p) == []
    decreases p
  {
    if p > 0 { NoOnes(row, d, x, p - 1); }
  }

  lemma NewGroup(row: seq<Action>, nt: nat, p: nat)
    requires Proper(row, nt) && 0 < p < |row| && row[p].symbol != row[p - 1].symbol
    ensures NoConflict(row, p, row[p].symbol)
  {
    assert Precedes(row[p - 1], row[p]);
    forall i | 0 <= i < p ensures row[i].symbol <= row[p - 1].symbol {
      assert i < p - 1 ==> Precedes(row[i], row[p - 1]);
    }
  }

  /** The end of a conflict. */
  method CloseConflict(row: seq<Action>, nt: nat, d: nat, p: nat, ghost keep: seq<int>, open: seq<int>, cbase0: nat, csym: nat, actionrow: array<int>)
    returns (conf: seq<int>, cbase: nat)
    requires csym < nt && Scanning(row, nt, d, p, keep, open, cbase0, csym) && Cells(row, d, nt, p, actionrow[..], keep, csym)
    modifies actionrow
    ensures cbase == |conf| && Whole(conf) && keep <= conf && Cells(row, d, nt, p, actionrow[..], conf, -1)
  {
    OnesProper(row, nt, d, csym, p);
    hide Cells, Ones, EntryAt, IsList;
    var j;
    conf, cbase, j := Close(keep, open, cbase0);
    CellsSize(row, d, nt, p, actionrow[..], keep, csym);
    ghost var cells := actionrow[..];
    actionrow[2 * nt + csym] := j + 1;
    assert actionrow[..] == cells[2 * nt + csym := j + 1];
    CellsClosed(row, d, nt, p, cells, keep, csym, conf, j, actionrow[..]);
  }

  lemma CellsSize(row: seq<Action>, d: nat, nt: nat, p: nat, cells: seq<int>, conf: seq<int>, csym: int)
    requires Cells(row, d, nt, p, cells, conf, csym)
    ensures |cells| == 3 * nt
  {}

  /** What token_actions does with one action. */
  method OneAction(row: seq<Action>, nt: nat, d: nat, p: nat, ghost keep: seq<int>, conf0: seq<int>, cbase0: nat, csym0: int, actionrow: array<int>)
    returns (conf: seq<int>, cbase: nat, csym: int)
    requires p < |row| && Proper(row, nt) && (csym0 == -1 || csym0 == row[p].symbol) && Cells(row, d, nt, p, actionrow[..], keep, csym0)
    requires csym0 == -1 ==> conf0 == keep && cbase0 == |keep| && Whole(keep) && NoConflict(row, p, row[p].symbol)
    requires csym0 != -1 ==> Scanning(row, nt, d, p, keep, conf0, cbase0, csym0)
    modifies actionrow
    ensures Scanning(row, nt, d, p + 1, keep, conf, cbase, csym) && Cells(row, d, nt, p + 1, actionrow[..], keep, csym)
    ensures csym == -1 || csym == row[p].symbol
  {
    conf, cbase, csym := conf0, cbase0, csym0;
    var a := row[p];
    ghost var cells := actionrow[..];
    CellsSize(row, d, nt, p, cells, keep, csym);
    ListSoFar(row, nt, d, p, keep, conf, cbase, csym);
    hide Cells, Ones, ConfCell, NoConflict, InList;
    if a.suppressed == 0 {
      if a.shift {
        actionrow[a.symbol] := a.number;
        assert actionrow[..] == cells[a.symbol := a.number];
      } else if a.number != d {
        actionrow[nt + a.symbol] := a.number;
        assert actionrow[..] == cells[nt + a.symbol := a.number];
      }
    } else if a.suppressed == 1 {
      csym := a.symbol;
      conf, cbase := AddToList(keep, conf, cbase, Ones(row, d, a.symbol, p), a, d);
    }
    CellsStep(row, d, nt, p, cells, keep, csym0, csym, actionrow[..]);
    ScanOn(row, nt, d, p, keep, conf0, cbase0, csym0, conf, cbase, csym);
  }

  lemma ListSoFar(row: seq<Action>, nt: nat, d: nat, p: nat, keep: seq<int>, conf: seq<int>, cbase: nat, csym: int)
    requires p < |row| && Proper(row, nt) && (csym == -1 || csym == row[p].symbol)
    requires csym == -1 ==> conf == keep && cbase == |keep| && Whole(keep) && NoConflict(row, p, row[p].symbol)
    requires csym != -1 ==> Scanning(row, nt, d, p, keep, conf, cbase, csym)
    ensures InList(keep, conf, cbase, Ones(row, d, row[p].symbol, p))
    ensures row[p].shift ==> Ones(row, d, row[p].symbol, p) == []
  {
    var x := row[p].symbol;
    if csym == -1 { NoOnes(row, d, x, p); }
    OnesProper(row, nt, d, x, p);
    if row[p].shift {
      ShiftFirst(row, nt, p);
      NoOnes(row, d, x, p);
    }
  }

  lemma ScanOn(row: seq<Action>, nt: nat, d: nat, p: nat, keep: seq<int>, conf0: seq<int>, cbase0: nat, csym0: int, conf: seq<int>, cbase: nat, csym: int)
    requires p < |row| && Proper(row, nt) && (csym0 == -1 || csym0 == row[p].symbol)
    requires csym0 == -1 ==> conf0 == keep && cbase0 == |keep| && Whole(keep) && NoConflict(row, p, row[p].symbol)
    requires csym0 != -1 ==> Scanning(row, nt, d, p, keep, conf0, cbase0, csym0)
    requires var a := row[p];
      if a.suppressed == 1 then csym == a.symbol
        && InList(keep, conf, cbase, if a.shift || a.number != d then Ones(row, d, a.symbol, p) + [a] else Ones(row, d, a.symbol, p))
      else conf == conf0 && cbase == cbase0 && csym == csym0
    ensures Scanning(row, nt, d, p + 1, keep, conf, cbase, csym)
  {
    hide InList, Proper;
    var a := row[p];
    if a.suppressed == 1 {
      assert Conflicting(row[p], csym);
    }
  }

  /** The scan of one state: the cells of its actions, and the conflict table with its lists. */
  method StateCells(row: seq<Action>, d: nat, nt: nat, conf0: seq<int>) returns (actionrow: array<int>, conf: seq<int>)
    requires Proper(row, nt) && Whole(conf0)
    ensures fresh(actionrow) && Whole(conf) && conf0 <= conf && Cells(row, d, nt, |row|, actionrow[..], conf, -1)
  {
    actionrow := new int[3 * nt](_ => 0);
    var csym: int := -1;
    conf := conf0;
    var cbase: nat := |conf|;
    ghost var keep := conf;
    NoCells(row, d, nt, actionrow[..], conf);
    var p: nat := 0;
    hide Cells, NoConflict, InList;
    while p < |row|
      invariant p <= |row| && Scanning(row, nt, d, p, keep, conf, cbase, csym) && conf0 <= keep && -1 <= csym < nt
      invariant Cells(row, d, nt, p, actionrow[..], keep, csym)
    {
      if csym != -1 && csym != row[p].symbol {
        NewGroup(row, nt, p);
        conf, cbase := CloseConflict(row, nt, d, p, keep, conf, cbase, csym, actionrow);
        keep := conf;
        csym := -1;
      } else if csym == -1 {
        NoneYet(row, nt, d, p, keep, conf, cbase);
      }
      conf, cbase, csym := OneAction(row, nt, d, p, keep, conf, cbase, csym, actionrow);
      p := p + 1;
    }
    if csym != -1 {
      conf, cbase := CloseConflict(row, nt, d, p, keep, conf, cbase, csym, actionrow);
    }
  }

  lemma NoCells(row: seq<Action>, d: nat, nt: nat, cells: seq<int>, conf: seq<int>)
    requires |cells| == 3 * nt && forall i :: 0 <= i < |cells| ==> cells[i] == 0
    ensures Cells(row, d, nt, 0, cells, conf, -1)
  {}
}
