/** Which displacements first fit chooses, stated without the table (output.c, sort_actions and pack_table): the order
    of the rows and their displacements are determined by the rows, so it is too whether all rows have room. */
module FirstFits {
  import opened Pigeonhole
  import opened Packing

  const MAXTABLE := 120000

  // ----- The order in which rows are placed -----

  function Least(s: seq<int>): (m: int)
    requires s != []
    ensures m in s && forall k :: 0 <= k < |s| ==> m <= s[k]
  {
    if |s| == 1 then s[0] else
      var m := Least(s[..|s| - 1]);
      if s[|s| - 1] < m then s[|s| - 1] else m
  }

  function Greatest(s: seq<int>): (m: int)
    requires s != []
    ensures m in s && forall k :: 0 <= k < |s| ==> s[k] <= m
  {
    if |s| == 1 then s[0] else
      var m := Greatest(s[..|s| - 1]);
      if s[|s| - 1] > m then s[|s| - 1] else m
  }

  /** What token_actions and save_column store in `width`. */
  function Span(s: seq<int>): int {
    if s == [] then 0 else Greatest(s) - Least(s) + 1
  }

  /** Row `x` may be placed before row `y`: wider rows first, among equally wide ones fuller rows first. */
  predicate Before(width: seq<int>, tally: seq<int>, x: int, y: int)
    requires 0 <= x < |width| == |tally| && 0 <= y < |width|
  {
    width[x] > width[y] || (width[x] == width[y] && tally[x] >= tally[y])
  }

  /** Row `x` is placed before row `y`: among rows of the same width and fullness the order of their numbers decides. */
  predicate Earlier(width: seq<int>, tally: seq<int>, x: int, y: int)
    requires 0 <= x < |width| == |tally| && 0 <= y < |width|
  {
    Before(width, tally, x, y) && (x < y || !Before(width, tally, y, x))
  }

  ghost predicate Sorted(width: seq<int>, tally: seq<int>, s: seq<int>) {
    && |width| == |tally| && (forall x :: 0 <= x < |s| ==> 0 <= s[x] < |width|)
    && forall x, y :: 0 <= x < y < |s| ==> Earlier(width, tally, s[x], s[y])
  }

  /** `s` lists each nonempty row below `n` once. */
  ghost predicate Lists(tally: seq<int>, s: seq<int>, n: nat) {
    && n <= |tally| && Distinct(s)
    && forall v :: v in s <==> 0 <= v < n && tally[v] > 0
  }

  function Inserted(s: seq<int>, i: int, j: nat): (r: seq<int>)
    requires j <= |s|
    ensures |r| == |s| + 1
    ensures forall x :: 0 <= x < j ==> r[x] == s[x]
    ensures r[j] == i
    ensures forall x :: j < x < |r| ==> r[x] == s[x - 1]
    ensures forall x :: j <= x < |s| ==> s[x] == r[x + 1]
  {
    s[..j] + [i] + s[j..]
  }

  lemma InsertMembers(s: seq<int>, i: int, j: nat)
    requires j <= |s|
    ensures forall v :: v in Inserted(s, i, j) <==> v == i || v in s
    ensures Distinct(s) && i !in s ==> Distinct(Inserted(s, i, j))
  {
    var r := Inserted(s, i, j);
    forall v | v in s ensures v in r {
      var x :| 0 <= x < |s| && s[x] == v;
      assert r[if x < j then x else x + 1] == v;
    }
  }

  lemma WiderBelow(width: seq<int>, tally: seq<int>, s: seq<int>, j: nat)
    requires Sorted(width, tally, s) && 0 < j < |s|
    ensures width[s[j - 1]] >= width[s[j]]
  {
    assert Earlier(width, tally, s[j - 1], s[j]);
  }

  /** Inserting row `i` at position `j`, behind all rows that may stand before it; its number is the greatest so far. */
  lemma InsertedSorted(width: seq<int>, tally: seq<int>, s: seq<int>, i: nat, j: nat)
    requires i < |width| && Sorted(width, tally, s) && j <= |s| && forall x :: 0 <= x < |s| ==> s[x] < i
    requires forall x :: j <= x < |s| ==> !Before(width, tally, s[x], i)
    requires j > 0 ==> Before(width, tally, s[j - 1], i)
    ensures Sorted(width, tally, Inserted(s, i, j))
  {
    var r := Inserted(s, i, j);
    forall x, y | 0 <= x < y < |r| ensures Earlier(width, tally, r[x], r[y]) {
      if y == j {
        assert x == j - 1 || Earlier(width, tally, s[x], s[j - 1]);
      } else if x == j {
        assert !Before(width, tally, s[y - 1], i);
      } else {
        var x', y' := if x < j then x else x - 1, if y < j then y else y - 1;
        assert Earlier(width, tally, s[x'], s[y']);
      }
    }
  }

  lemma InsertKeeps(width: seq<int>, tally: seq<int>, s: seq<int>, i: nat, j: nat)
    requires i < |width| && Sorted(width, tally, s) && Lists(tally, s, i) && tally[i] > 0 && j <= |s|
    requires forall x :: j <= x < |s| ==> !Before(width, tally, s[x], i)
    requires j > 0 ==> Before(width, tally, s[j - 1], i)
    ensures Sorted(width, tally, Inserted(s, i, j)) && Lists(tally, Inserted(s, i, j), i + 1)
  {
    InsertMembers(s, i, j);
    assert forall x :: 0 <= x < |s| ==> s[x] in s;
    InsertedSorted(width, tally, s, i, j);
  }

  /** The rows listed by `ord`. */
  function RowsAt(rows: seq<Row>, ord: seq<int>): (r: seq<Row>)
    requires forall x :: 0 <= x < |ord| ==> 0 <= ord[x] < |rows|
    ensures |r| == |ord| && forall x :: 0 <= x < |ord| ==> r[x] == rows[ord[x]]
  {
    seq(|ord|, x requires 0 <= x < |ord| => rows[ord[x]])
  }

  function Widths(rows: seq<Row>): seq<int> { seq(|rows|, v requires 0 <= v < |rows| => Span(rows[v].froms)) }

  function Tallies(rows: seq<Row>): seq<int> { seq(|rows|, v requires 0 <= v < |rows| => |rows[v].froms|) }

  /** The order in which pack_table places the rows: the nonempty ones, each once. */
  ghost predicate PlacingOrder(rows: seq<Row>, s: seq<int>) {
    Sorted(Widths(rows), Tallies(rows), s) && Lists(Tallies(rows), s, |rows|)
  }

  lemma EarlierElsewhere(width: seq<int>, tally: seq<int>, s: seq<int>, t: seq<int>, n: nat)
    requires Sorted(width, tally, s) && Sorted(width, tally, t) && Distinct(s) && (forall v :: v in s ==> v in t)
    requires n < |s| && n < |t| && s[..n] == t[..n]
    ensures s[n] == t[n] || Earlier(width, tally, t[n], s[n])
  {
    assert s[n] in s;
    forall m | 0 <= m < n ensures t[m] != s[n] {
      assert t[m] == t[..n][m] == s[..n][m] == s[m];
    }
    var m :| 0 <= m < |t| && t[m] == s[n];
  }

  lemma {:induction false} SamePrefix(width: seq<int>, tally: seq<int>, s: seq<int>, t: seq<int>, n: nat)
    requires Sorted(width, tally, s) && Sorted(width, tally, t) && Distinct(s) && Distinct(t)
    requires (forall v :: v in s <==> v in t) && n <= |s| && n <= |t|
    ensures s[..n] == t[..n]
    decreases n
  {
    if n > 0 {
      SamePrefix(width, tally, s, t, n - 1);
      EarlierElsewhere(width, tally, s, t, n - 1);
      EarlierElsewhere(width, tally, t, s, n - 1);
      assert s[..n] == s[..n - 1] + [s[n - 1]] && t[..n] == t[..n - 1] + [t[n - 1]];
    }
  }

  lemma Found(s: seq<int>, t: seq<int>, i: nat)
    requires (forall v :: v in t ==> v in s) && i < |t|
    ensures exists m :: 0 <= m < |s| && s[m] == t[i]
  {
    var v := t[i];
    assert v in t;
  }

  lemma NoLonger(s: seq<int>, t: seq<int>)
    requires Distinct(t) && (forall v :: v in t ==> v in s) && s <= t
    ensures s == t
  {
    forall m | 0 <= m < |s| && |s| < |t| ensures s[m] != t[|s|] {
      assert t[m] == s[m];
    }
    assert s == t[..|s|] && t == t[..|t|];
    if |s| < |t| { Found(s, t, |s|); }
  }

  /** There is only one placing order. */
  lemma OrderUnique(rows: seq<Row>, s: seq<int>, t: seq<int>)
    requires PlacingOrder(rows, s) && PlacingOrder(rows, t)
    ensures s == t
  {
    hide Earlier;
    var n := if |s| < |t| then |s| else |t|;
    SamePrefix(Widths(rows), Tallies(rows), s, t, n);
    if |s| <= |t| { NoLonger(s, t); } else { NoLonger(t, s); }
  }

  // ----- First fit -----

  /** No row placed so far covers the cell. */
  ghost predicate CellFree(done: seq<Row>, pos: seq<int>, loc: int)
    requires |done| == |pos|
  {
    loc >= 0 && forall x, m :: 0 <= x < |done| ==> !Owns(done[x], pos[x], m, loc)
  }

  /** A row with these columns may be placed at displacement `j`. */
  ghost predicate FreeFor(done: seq<Row>, pos: seq<int>, froms: seq<int>, j: int)
    requires |done| == |pos|
  {
    j != 0 && j !in pos && forall k :: 0 <= k < |froms| ==> CellFree(done, pos, j + froms[k])
  }

  ghost predicate IsFirst(done: seq<Row>, pos: seq<int>, froms: seq<int>, j: int)
    requires |done| == |pos|
  {
    FreeFor(done, pos, froms, j) && forall i :: i < j ==> !FreeFor(done, pos, froms, i)
  }

  ghost predicate Indices(rows: seq<Row>, s: seq<int>) { forall x :: 0 <= x < |s| ==> 0 <= s[x] < |rows| }

  /** The last row before the i-th in the order that is identical to it. */
  ghost predicate LastEqual(rows: seq<Row>, s: seq<int>, i: nat, prev: nat)
    requires Indices(rows, s) && i < |s|
  {
    prev < i && rows[s[prev]] == rows[s[i]] && forall x :: prev < x < i ==> rows[s[x]] != rows[s[i]]
  }

  /** The i-th row is one of the rows on tokens (the first 2 * ns) and identical to an earlier one. */
  ghost predicate Shares(rows: seq<Row>, s: seq<int>, ns: nat, i: nat)
    requires Indices(rows, s) && i < |s|
  {
    s[i] < 2 * ns && exists prev: nat :: LastEqual(rows, s, i, prev)
  }

  /** Where the i-th row goes: beside an identical one, or where it fits first. */
  ghost predicate Takes(rows: seq<Row>, s: seq<int>, ns: nat, pos: seq<int>, i: nat)
    requires Indices(rows, s) && i < |s| && i < |pos|
  {
    if Shares(rows, s, ns, i) then forall prev: nat :: LastEqual(rows, s, i, prev) ==> pos[i] == pos[prev]
    else IsFirst(RowsAt(rows, s[..i]), pos[..i], rows[s[i]].froms, pos[i])
  }

  ghost predicate FirstFitted(rows: seq<Row>, s: seq<int>, ns: nat, pos: seq<int>) {
    |pos| <= |s| && Indices(rows, s) && forall i: nat :: i < |pos| ==> Takes(rows, s, ns, pos, i)
  }

  lemma TakesSame(rows: seq<Row>, s: seq<int>, ns: nat, pos: seq<int>, pos': seq<int>, i: nat)
    requires Indices(rows, s) && i < |s| && i < |pos| && i < |pos'| && pos[..i] == pos'[..i]
    requires Takes(rows, s, ns, pos, i) && Takes(rows, s, ns, pos', i)
    ensures pos[i] == pos'[i]
  {
    if Shares(rows, s, ns, i) {
      var prev: nat :| LastEqual(rows, s, i, prev);
      assert pos[..i][prev] == pos'[..i][prev];
    } else {
      hide FreeFor;
    }
  }

  /** First fit leaves no choice. */
  lemma {:induction false} FirstFitUnique(rows: seq<Row>, s: seq<int>, ns: nat, pos: seq<int>, pos': seq<int>, n: nat)
    requires FirstFitted(rows, s, ns, pos) && FirstFitted(rows, s, ns, pos') && n <= |pos| && n <= |pos'|
    ensures pos[..n] == pos'[..n]
    decreases n
  {
    if n > 0 {
      FirstFitUnique(rows, s, ns, pos, pos', n - 1);
      hide Takes;
      TakesSame(rows, s, ns, pos, pos', n - 1);
      assert pos[..n] == pos[..n - 1] + [pos[n - 1]] && pos'[..n] == pos'[..n - 1] + [pos'[n - 1]];
    }
  }

  /** One more row. */
  lemma FirstFitMore(rows: seq<Row>, s: seq<int>, ns: nat, pos: seq<int>, j: int)
    requires FirstFitted(rows, s, ns, pos) && |pos| < |s| && Takes(rows, s, ns, pos + [j], |pos|)
    ensures FirstFitted(rows, s, ns, pos + [j])
  {
    hide IsFirst;
    var pos' := pos + [j];
    forall i: nat | i < |pos'| ensures Takes(rows, s, ns, pos', i) {
      if i < |pos| {
        assert Takes(rows, s, ns, pos, i);
        assert pos'[..i] == pos[..i];
      }
    }
  }

  /** No row reaches MAXTABLE. */
  ghost predicate BelowLimit(rows: seq<Row>, s: seq<int>, pos: seq<int>)
    requires Indices(rows, s) && |pos| <= |s|
  {
    forall x, k :: 0 <= x < |pos| && 0 <= k < |rows[s[x]].froms| ==> pos[x] + rows[s[x]].froms[k] < MAXTABLE
  }

  /** Placed in their order by first fit, all rows lie below MAXTABLE. */
  ghost predicate Packable(rows: seq<Row>, ns: nat) {
    exists s: seq<int>, pos: seq<int> ::
      PlacingOrder(rows, s) && |pos| == |s| && FirstFitted(rows, s, ns, pos) && BelowLimit(rows, s, pos)
  }

  /** The row after those in `pos` fits nowhere below MAXTABLE. */
  ghost predicate TooLong(rows: seq<Row>, s: seq<int>, ns: nat, pos: seq<int>) {
    && |pos| < |s| && FirstFitted(rows, s, ns, pos) && !Shares(rows, s, ns, |pos|)
    && forall j :: FreeFor(RowsAt(rows, s[..|pos|]), pos, rows[s[|pos|]].froms, j) ==> Reaches(rows[s[|pos|]].froms, j)
  }

  ghost predicate Reaches(froms: seq<int>, j: int) { exists k :: 0 <= k < |froms| && j + froms[k] >= MAXTABLE }

  lemma TooLongForAll(rows: seq<Row>, s: seq<int>, ns: nat, pos: seq<int>, pos': seq<int>)
    requires TooLong(rows, s, ns, pos) && |pos'| == |s| && FirstFitted(rows, s, ns, pos')
    ensures !BelowLimit(rows, s, pos')
  {
    var i := |pos|;
    FirstFitUnique(rows, s, ns, pos, pos', i);
    assert pos == pos[..i];
    assert Takes(rows, s, ns, pos', i);
    assert FreeFor(RowsAt(rows, s[..i]), pos, rows[s[i]].froms, pos'[i]);
    assert Reaches(rows[s[i]].froms, pos'[i]);
  }

  /** A row without a place means that the rows cannot be packed at all in this way. */
  lemma TooLongIsUnpackable(rows: seq<Row>, s: seq<int>, ns: nat, pos: seq<int>)
    requires PlacingOrder(rows, s) && TooLong(rows, s, ns, pos)
    ensures !Packable(rows, ns)
  {
    hide PlacingOrder, BelowLimit, TooLong, Takes;
    forall t: seq<int>, pos': seq<int> | PlacingOrder(rows, t) && |pos'| == |t| && FirstFitted(rows, t, ns, pos')
      ensures !BelowLimit(rows, t, pos')
    {
      OrderUnique(rows, s, t);
      TooLongForAll(rows, s, ns, pos, pos');
    }
  }

  // ----- When there is room -----

  /** How many entries the rows have together. */
  function Total(rows: seq<Row>): nat {
    if rows == [] then 0 else Total(rows[..|rows| - 1]) + |rows[|rows| - 1].froms|
  }

  /** Every column has room for all entries times the entries of its own row, and one more for each row. */
  ghost predicate Roomy(rows: seq<Row>) {
    forall v, k :: 0 <= v < |rows| && 0 <= k < |rows[v].froms| ==>
      Total(rows) * |rows[v].froms| + |rows| + rows[v].froms[k] < MAXTABLE
  }

  lemma TimesMore(a: int, b: int, t: int)
    ensures (a + b) * t == a * t + b * t
  {}

  /** The displacements at which an entry of the placed row would be hit. */
  function RowBlocks(cols: seq<int>, j: int, froms: seq<int>): (r: seq<int>)
    ensures |r| == |cols| * |froms|
  {
    if cols == [] then [] else
      var c := cols[|cols| - 1];
      var r := RowBlocks(cols[..|cols| - 1], j, froms) + seq(|froms|, k requires 0 <= k < |froms| => j + c - froms[k]);
      TimesMore(|cols| - 1, 1, |froms|);
      r
  }

  lemma {:induction false} RowBlocksHas(cols: seq<int>, j: int, froms: seq<int>, m: nat, k: nat)
    requires m < |cols| && k < |froms|
    ensures j + cols[m] - froms[k] in RowBlocks(cols, j, froms)
    decreases |cols|
  {
    var n := |cols| - 1;
    if m < n {
      RowBlocksHas(cols[..n], j, froms, m, k);
    } else {
      var last := seq(|froms|, k requires 0 <= k < |froms| => j + cols[n] - froms[k]);
      assert last[k] == j + cols[m] - froms[k] && last[k] in last;
    }
  }

  function Blocks(done: seq<Row>, pos: seq<int>, froms: seq<int>): (r: seq<int>)
    requires |done| == |pos|
    ensures |r| == Total(done) * |froms|
  {
    if done == [] then [] else
      var n := |done| - 1;
      var r := Blocks(done[..n], pos[..n], froms) + RowBlocks(done[n].froms, pos[n], froms);
      TimesMore(Total(done[..n]), |done[n].froms|, |froms|);
      r
  }

  lemma {:induction false} BlocksHas(done: seq<Row>, pos: seq<int>, froms: seq<int>, x: nat, m: nat, k: nat)
    requires |done| == |pos| && x < |done| && m < |done[x].froms| && k < |froms|
    ensures pos[x] + done[x].froms[m] - froms[k] in Blocks(done, pos, froms)
    decreases |done|
  {
    var n := |done| - 1;
    if x < n { BlocksHas(done[..n], pos[..n], froms, x, m, k); } else { RowBlocksHas(done[x].froms, pos[x], froms, m, k); }
  }

  /** What is not blocked is free. */
  lemma UnblockedIsFree(done: seq<Row>, pos: seq<int>, froms: seq<int>, j: int)
    requires |done| == |pos| && j !in Blocks(done, pos, froms) && j !in pos && j != 0
    requires forall k :: 0 <= k < |froms| ==> j + froms[k] >= 0
    ensures FreeFor(done, pos, froms, j)
  {
    hide Blocks;
    forall k | 0 <= k < |froms| ensures CellFree(done, pos, j + froms[k]) {
      var loc := j + froms[k];
      forall x, m | 0 <= x < |done| ensures !Owns(done[x], pos[x], m, loc) {
        if 0 <= m < |done[x].froms| { BlocksHas(done, pos, froms, x, m, k); }
      }
    }
  }

  /** Some displacement not far up is free: there are more of them than can be blocked. */
  lemma SomeFree(done: seq<Row>, pos: seq<int>, froms: seq<int>) returns (j: int)
    requires |done| == |pos| && froms != [] && forall k :: 0 <= k < |froms| ==> froms[k] >= 0
    ensures FreeFor(done, pos, froms, j) && j <= Total(done) * |froms| + |done| + 1
  {
    hide FreeFor, Total;
    var blocked := Blocks(done, pos, froms) + pos + [0];
    j := Gap(-Least(froms), blocked);
    UnblockedIsFree(done, pos, froms, j);
  }

  lemma {:induction false} TotalJoined(a: seq<Row>, b: seq<Row>)
    ensures Total(a + b) == Total(a) + Total(b)
    decreases |b|
  {
    if b == [] {
      assert a + b == a;
    } else {
      var n := |b| - 1;
      assert (a + b)[..|a + b| - 1] == a + b[..n];
      TotalJoined(a, b[..n]);
    }
  }

  lemma TotalWithout(rows: seq<Row>, ord: seq<int>, q: nat)
    requires Indices(rows, ord) && q < |ord|
    ensures Total(RowsAt(rows, ord)) == Total(RowsAt(rows, ord[..q] + ord[q + 1..])) + |rows[ord[q]].froms|
  {
    var a, b, c := RowsAt(rows, ord[..q]), [rows[ord[q]]], RowsAt(rows, ord[q + 1..]);
    assert RowsAt(rows, ord) == a + b + c;
    assert RowsAt(rows, ord[..q] + ord[q + 1..]) == a + c;
    assert Total(b) == |rows[ord[q]].froms|;
    TotalJoined(a, b);
    TotalJoined(a + b, c);
    TotalJoined(a, c);
  }

  lemma TotalTop(rows: seq<Row>, n: nat)
    requires |rows| == n + 1
    ensures Total(rows) == Total(rows[..n]) + |rows[n].froms|
  {}

  /** A list of different numbers up to n, and the list without n. */
  lemma WithoutTop(ord: seq<int>, n: nat) returns (rest: seq<int>, q: nat)
    requires Distinct(ord) && forall x :: 0 <= x < |ord| ==> 0 <= ord[x] <= n
    ensures Distinct(rest) && forall x :: 0 <= x < |rest| ==> 0 <= rest[x] < n
    ensures n in ord ==> q < |ord| && ord[q] == n && rest == ord[..q] + ord[q + 1..]
    ensures n !in ord ==> rest == ord
  {
    rest, q := ord, 0;
    if n in ord {
      q :| 0 <= q < |ord| && ord[q] == n;
      rest := ord[..q] + ord[q + 1..];
    }
  }

  /** Some of the rows, each once, have no more entries than all. */
  lemma {:induction false} TotalOfSome(rows: seq<Row>, ord: seq<int>)
    requires Distinct(ord) && Indices(rows, ord)
    ensures Total(RowsAt(rows, ord)) <= Total(rows)
    decreases |rows|
  {
    if rows != [] {
      hide Total, Distinct;
      var n: nat := |rows| - 1;
      TotalTop(rows, n);
      var rest, q := WithoutTop(ord, n);
      if n in ord { TotalWithout(rows, ord, q); }
      assert RowsAt(rows[..n], rest) == RowsAt(rows, rest);
      TotalOfSome(rows[..n], rest);
    }
  }

  lemma EntryOfOrder(rows: seq<Row>, s: seq<int>, i: nat)
    requires PlacingOrder(rows, s) && i < |s|
    ensures 0 <= s[i] < |rows| && rows[s[i]].froms != [] && i < |rows| && Indices(rows, s)
    ensures Total(RowsAt(rows, s[..i])) <= Total(rows)
  {
    hide Earlier, Total;
    assert s[i] in s;
    DistinctBound(s, |rows|);
    TotalOfSome(rows, s[..i]);
  }

  lemma RowOkMeans(v: Row)
    requires RowOk(v)
    ensures |v.froms| == |v.tos| && forall k :: 0 <= k < |v.froms| ==> v.froms[k] >= 0
  {}

  lemma TotalMono(a: int, b: int, t: int)
    requires a <= b && t >= 0
    ensures a * t <= b * t
  {}

  lemma ReachesPast(rows: seq<Row>, v: nat, j: int, n: int)
    requires v < |rows| && Reaches(rows[v].froms, j) && j <= n <= Total(rows) * |rows[v].froms| + |rows|
    ensures !Roomy(rows)
  {
    hide Total;
    var k :| 0 <= k < |rows[v].froms| && j + rows[v].froms[k] >= MAXTABLE;
  }

  /** Rows of at most m entries. */
  lemma {:induction false} TotalBound(rows: seq<Row>, m: nat)
    requires forall v :: 0 <= v < |rows| ==> |rows[v].froms| <= m
    ensures Total(rows) <= |rows| * m
    decreases |rows|
  {
    if rows != [] {
      var n := |rows| - 1;
      TotalBound(rows[..n], m);
      assert |rows| * m == n * m + m;
    }
  }

  /** Bounds for all rows make them Roomy. */
  lemma BoundedIsRoomy(rows: seq<Row>, total: nat, t: nat, count: nat, largest: int)
    requires Total(rows) <= total && |rows| <= count && total * t + count + largest < MAXTABLE
    requires forall v :: 0 <= v < |rows| ==> |rows[v].froms| <= t
    requires forall v, k :: 0 <= v < |rows| && 0 <= k < |rows[v].froms| ==> rows[v].froms[k] <= largest
    ensures Roomy(rows)
  {
    hide Total;
    forall v, k | 0 <= v < |rows| && 0 <= k < |rows[v].froms|
      ensures Total(rows) * |rows[v].froms| + |rows| + rows[v].froms[k] < MAXTABLE
    {
      TotalMono(Total(rows), total, |rows[v].froms|);
      TotalMono(|rows[v].froms|, t, total);
    }
  }

  /** A row without a place is one for which the table is too small by this measure. */
  lemma TooLongIsNotRoomy(rows: seq<Row>, s: seq<int>, ns: nat, pos: seq<int>)
    requires PlacingOrder(rows, s) && TooLong(rows, s, ns, pos)
    requires forall v :: 0 <= v < |rows| ==> RowOk(rows[v])
    ensures !Roomy(rows)
  {
    hide Takes, Shares, FreeFor, Total, RowOk, Reaches, Earlier, Distinct, Roomy;
    var i := |pos|;
    var done, v := RowsAt(rows, s[..i]), rows[s[i]];
    EntryOfOrder(rows, s, i);
    RowOkMeans(v);
    hide PlacingOrder;
    var j := SomeFree(done, pos, v.froms);
    TotalMono(Total(done), Total(rows), |v.froms|);
    ReachesPast(rows, s[i], j, Total(done) * |v.froms| + |done| + 1);
  }
}
