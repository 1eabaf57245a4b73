/** The in-place table builder of output.c: sort_actions, matching_vector, pack_vector, pack_table. */
module Packers {
  import opened Pigeonhole
  import opened Packing
  import opened FirstFits

  /** After writing the first `n` columns of row `v`. */
  ghost predicate WrittenUpTo(p: Pack, v: Row, j: int, n: nat, p': Pack) {
    && |p'.chk| == |p'.tab| == |p.chk| == |p.tab|
    && |v.froms| == |v.tos| && n <= |v.froms| && (forall k :: 0 <= k < n ==> CellOk(p', v, j, k))
    && (forall loc :: 0 <= loc < |p.chk| && !InRow(v, j, loc) ==>
          p'.chk[loc] == p.chk[loc] && p'.tab[loc] == p.tab[loc])
    && p.high <= p'.high < |p'.chk|
  }

  lemma WriteStep(p: Pack, v: Row, j: int, n: nat, p': Pack)
    requires WrittenUpTo(p, v, j, n, p') && RowOk(v) && n < |v.froms| && 0 <= j + v.froms[n] < |p.chk|
    ensures var loc := j + v.froms[n];
            WrittenUpTo(p, v, j, n + 1, p'.(chk := p'.chk[loc := v.froms[n]], tab := p'.tab[loc := v.tos[n]],
                                            high := if loc > p'.high then loc else p'.high))
  {
    var loc := j + v.froms[n];
    var q := p'.(chk := p'.chk[loc := v.froms[n]], tab := p'.tab[loc := v.tos[n]],
                 high := if loc > p'.high then loc else p'.high);
    assert Owns(v, j, n, loc);
    forall k | 0 <= k < n + 1 ensures CellOk(q, v, j, k) {
      if k < n { assert CellOk(p', v, j, k); }
    }
  }

  lemma ZeroNeverFits(p: Pack, froms: seq<int>)
    ensures !Fits(p, froms, 0)
  {
  }

  lemma GrownTwice(p: Pack, rows: seq<Row>, m: nat, n: nat)
    requires PackOk(p, rows) && |p.chk| <= m <= n
    ensures |Grown(p, m).chk| == m && Grown(Grown(p, m), n) == Grown(p, n) && PackOk(Grown(p, n), rows)
    ensures forall froms, j :: Fits(p, froms, j) <==> Fits(Grown(p, n), froms, j)
  {
    GrownOk(p, rows, n);
  }

  lemma LowRaised(p: Pack, rows: seq<Row>, low: nat)
    requires PackOk(p, rows) && low <= |p.chk| && forall loc :: 0 <= loc < low ==> p.chk[loc] != -1
    ensures PackOk(p.(low := low), rows)
  {
    var q := p.(low := low);
    forall x | 0 <= x < |rows| ensures Placed(q, rows[x], q.pos[x]) {
      assert Placed(p, rows[x], p.pos[x]);
      forall k | 0 <= k < |rows[x].froms| ensures CellOk(q, rows[x], q.pos[x], k) {
        assert CellOk(p, rows[x], p.pos[x], k);
      }
    }
    forall loc | 0 <= loc < |q.chk| && q.chk[loc] != -1 ensures Owned(q, rows, loc) {
      assert Owned(p, rows, loc);
    }
  }

  /** Rows in sorted order whose keys differ from a later one differ from it, and so do all before them. */
  lemma DifferentKeys(rows: seq<Row>, width: seq<int>, tally: seq<int>, s: seq<int>, x: nat, prev: nat, e: nat)
    requires Sorted(width, tally, s) && x <= prev < e < |s| && |rows| == |width|
    requires forall v :: 0 <= v < |rows| ==> tally[v] == |rows[v].froms| && width[v] == Span(rows[v].froms)
    requires width[s[prev]] != width[s[e]] || tally[s[prev]] != tally[s[e]]
    ensures rows[s[x]] != rows[s[e]]
  {
    assert Earlier(width, tally, s[prev], s[e]);
    assert x < prev ==> Earlier(width, tally, s[x], s[prev]);
  }

  method SameRow(v: Row, w: Row) returns (same: bool)
    requires |v.froms| == |v.tos| == |w.froms| == |w.tos|
    ensures same <==> v == w
  {
    same := true;
    var k := 0;
    while same && k < |v.froms|
      invariant k <= |v.froms|
      invariant same ==> v.froms[..k] == w.froms[..k] && v.tos[..k] == w.tos[..k]
      invariant !same ==> v != w
    {
      if w.tos[k] != v.tos[k] || w.froms[k] != v.froms[k] {
        same := false;
      }
      k := k + 1;
    }
    assert v.froms == v.froms[..|v.froms|] && w.froms == w.froms[..|v.froms|];
    assert v.tos == v.tos[..|v.froms|] && w.tos == w.tos[..|v.froms|];
  }

  /** What the driver needs of the finished tables. */
  ghost predicate Exact(rows: seq<Row>, base: seq<int>, p: Pack) {
    && |base| == |rows|
    && (forall v :: 0 <= v < |rows| ==> (base[v] == 0 <==> rows[v].froms == []))
    && (forall v, c :: 0 <= v < |rows| && c >= 0 ==> (Hit(p, base[v], c) <==> c in rows[v].froms))
    && (forall v, c :: 0 <= v < |rows| && c >= 0 && Hit(p, base[v], c) ==> Reads(p, rows[v], base[v], c))
    && (forall u, v :: 0 <= u < |rows| && 0 <= v < |rows| && base[u] == base[v] != 0 ==> rows[u] == rows[v])
  }

  /** The table entry found for column `c` is the row's. */
  ghost predicate Reads(p: Pack, v: Row, j: int, c: int)
    requires Hit(p, j, c)
  {
    exists k :: 0 <= k < |v.froms| && k < |v.tos| && v.froms[k] == c && p.tab[j + c] == v.tos[k]
  }

  /** The first `n` rows in placing order have their displacement in `base`, all others 0. */
  ghost predicate BaseOk(base: seq<int>, s: seq<int>, n: nat, pos: seq<int>) {
    && n <= |s| && n <= |pos|
    && (forall x :: 0 <= x < n ==> 0 <= s[x] < |base| && base[s[x]] == pos[x])
    && (forall v :: 0 <= v < |base| && (forall x :: 0 <= x < n ==> s[x] != v) ==> base[v] == 0)
  }

  lemma BaseStep(base: seq<int>, s: seq<int>, n: nat, pos: seq<int>, place: int)
    requires BaseOk(base, s, n, pos) && Distinct(s) && n < |s| && |pos| == n && 0 <= s[n] < |base|
    ensures BaseOk(base[s[n] := place], s, n + 1, pos + [place])
  {
  }

  /** A row that was placed is found through its displacement, and it alone. */
  lemma PlacedRowExact(rows: seq<Row>, s: seq<int>, base: seq<int>, p: Pack, x: nat, c: int)
    requires |base| == |rows| && x < |s| && (forall y :: 0 <= y < |s| ==> 0 <= s[y] < |rows|) && PackOk(p, RowsAt(rows, s))
    requires BaseOk(base, s, |s|, p.pos) && c >= 0
    ensures base[s[x]] != 0 && (Hit(p, base[s[x]], c) <==> c in rows[s[x]].froms)
    ensures Hit(p, base[s[x]], c) ==> Reads(p, rows[s[x]], base[s[x]], c)
  {
    var placed := RowsAt(rows, s);
    assert base[s[x]] == p.pos[x] && placed[x] == rows[s[x]];
    hide BaseOk;
    assert Placed(p, placed[x], p.pos[x]);
    CompressionIsExact(p, placed, x, c);
    if Hit(p, base[s[x]], c) { assert Reads(p, rows[s[x]], base[s[x]], c); }
  }

  /** Any row: an empty one has displacement 0 and is never hit. */
  lemma RowExact(rows: seq<Row>, tally: seq<int>, s: seq<int>, base: seq<int>, p: Pack, v: nat, c: int)
    requires |base| == |rows| == |tally| && Lists(tally, s, |rows|) && v < |rows| && tally[v] == |rows[v].froms|
    requires (forall x :: 0 <= x < |s| ==> 0 <= s[x] < |rows|) && PackOk(p, RowsAt(rows, s))
    requires BaseOk(base, s, |s|, p.pos) && c >= 0
    ensures base[v] == 0 <==> rows[v].froms == []
    ensures Hit(p, base[v], c) <==> c in rows[v].froms
    ensures Hit(p, base[v], c) ==> Reads(p, rows[v], base[v], c)
  {
    hide PackOk, Reads, Distinct;
    if v in s {
      var x :| 0 <= x < |s| && s[x] == v;
      PlacedRowExact(rows, s, base, p, x, c);
    }
  }

  /** Rows with one displacement are equal. */
  lemma SharedBase(rows: seq<Row>, s: seq<int>, base: seq<int>, p: Pack, u: nat, v: nat)
    requires |base| == |rows| && u < |rows| && v < |rows|
    requires (forall x :: 0 <= x < |s| ==> 0 <= s[x] < |rows|) && PackOk(p, RowsAt(rows, s))
    requires BaseOk(base, s, |s|, p.pos) && base[u] == base[v] != 0
    ensures rows[u] == rows[v]
  {
    var placed := RowsAt(rows, s);
    hide Placed, Owned, RowOk;
    var x :| 0 <= x < |s| && s[x] == u;
    var y :| 0 <= y < |s| && s[y] == v;
    hide BaseOk;
    assert x < y ==> placed[x] == placed[y];
    assert y < x ==> placed[y] == placed[x];
  }

  lemma PackedExactly(rows: seq<Row>, tally: seq<int>, s: seq<int>, base: seq<int>, p: Pack)
    requires |base| == |rows| == |tally| && Lists(tally, s, |rows|)
    requires forall v :: 0 <= v < |rows| ==> tally[v] == |rows[v].froms|
    requires (forall x :: 0 <= x < |s| ==> 0 <= s[x] < |rows|) && PackOk(p, RowsAt(rows, s))
    requires BaseOk(base, s, |s|, p.pos)
    ensures Exact(rows, base, p)
  {
    hide PackOk, BaseOk, Lists, Hit, Reads;
    forall v, c | 0 <= v < |rows| && c >= 0
      ensures base[v] == 0 <==> rows[v].froms == []
      ensures Hit(p, base[v], c) <==> c in rows[v].froms
      ensures Hit(p, base[v], c) ==> Reads(p, rows[v], base[v], c)
    {
      RowExact(rows, tally, s, base, p, v, c);
    }
    forall v | 0 <= v < |rows| ensures base[v] == 0 <==> rows[v].froms == [] {
      RowExact(rows, tally, s, base, p, v, 0);
    }
    forall u, v | 0 <= u < |rows| && 0 <= v < |rows| && base[u] == base[v] != 0 ensures rows[u] == rows[v] {
      SharedBase(rows, s, base, p, u, v);
    }
  }

  /** The table knows which cells are free. */
  lemma FitsIsFree(p: Pack, done: seq<Row>, froms: seq<int>, j: int)
    requires PackOk(p, done)
    ensures Fits(p, froms, j) <==> FreeFor(done, p.pos, froms, j)
  {
    hide Distinct;
    forall k | 0 <= k < |froms| ensures FreeCell(p.chk, j + froms[k]) <==> CellFree(done, p.pos, j + froms[k]) {
      CellIsFree(p, done, j + froms[k]);
    }
  }

  lemma CellIsFree(p: Pack, done: seq<Row>, loc: int)
    requires PackOk(p, done)
    ensures FreeCell(p.chk, loc) <==> CellFree(done, p.pos, loc)
  {
    hide Distinct;
    if loc >= 0 && !CellFree(done, p.pos, loc) {
      var x, m :| 0 <= x < |done| && Owns(done[x], p.pos[x], m, loc);
      assert Placed(p, done[x], p.pos[x]);
      assert CellOk(p, done[x], p.pos[x], m);
    }
    if 0 <= loc < |p.chk| && p.chk[loc] != -1 {
      assert Owned(p, done, loc);
    }
  }

  /** The displacement that pack_vector chose, in terms of the rows placed before. */
  lemma FirstIsFirst(p: Pack, done: seq<Row>, froms: seq<int>, place: int)
    requires PackOk(p, done) && Fits(p, froms, place) && forall j :: j < place ==> !Fits(p, froms, j)
    ensures IsFirst(done, p.pos, froms, place)
  {
    assert |p.pos| == |done|;
    hide PackOk, Fits, FreeFor;
    forall j ensures Fits(p, froms, j) <==> FreeFor(done, p.pos, froms, j) { FitsIsFree(p, done, froms, j); }
  }

  /** Wherever the row fits it reaches beyond MAXTABLE. */
  lemma StuckIsTooLong(rows: seq<Row>, s: seq<int>, ns: nat, p: Pack, i: nat)
    requires Indices(rows, s) && i < |s| && PackOk(p, RowsAt(rows, s[..i])) && FirstFitted(rows, s, ns, p.pos) && !Shares(rows, s, ns, i)
    requires forall j :: Fits(p, rows[s[i]].froms, j) ==> Reaches(rows[s[i]].froms, j)
    ensures TooLong(rows, s, ns, p.pos)
  {
    assert |p.pos| == i;
    hide PackOk, Fits, FreeFor, Reaches, Shares, FirstFitted;
    forall j ensures Fits(p, rows[s[i]].froms, j) <==> FreeFor(RowsAt(rows, s[..i]), p.pos, rows[s[i]].froms, j) {
      FitsIsFree(p, RowsAt(rows, s[..i]), rows[s[i]].froms, j);
    }
  }

  /** The i-th row, placed by first fit or beside an identical one, continues the first-fit placement. */
  lemma FirstFitGoesOn(rows: seq<Row>, s: seq<int>, ns: nat, p: Pack, i: nat, place: int)
    requires Indices(rows, s) && i < |s| && PackOk(p, RowsAt(rows, s[..i])) && FirstFitted(rows, s, ns, p.pos) && !Shares(rows, s, ns, i)
    requires Fits(p, rows[s[i]].froms, place) && forall j :: j < place ==> !Fits(p, rows[s[i]].froms, j)
    ensures FirstFitted(rows, s, ns, p.pos + [place])
  {
    assert |p.pos| == i;
    hide PackOk, Fits, FirstFitted, Shares, IsFirst;
    FirstIsFirst(p, RowsAt(rows, s[..i]), rows[s[i]].froms, place);
    assert (p.pos + [place])[..i] == p.pos;
    FirstFitMore(rows, s, ns, p.pos, place);
  }

  lemma SharingGoesOn(rows: seq<Row>, s: seq<int>, ns: nat, pos: seq<int>, i: nat, prev: nat)
    requires FirstFitted(rows, s, ns, pos) && |pos| == i < |s| && s[i] < 2 * ns && LastEqual(rows, s, i, prev)
    ensures FirstFitted(rows, s, ns, pos + [pos[prev]])
  {
    assert forall q: nat :: LastEqual(rows, s, i, q) ==> q == prev;
    hide FirstFitted, IsFirst;
    FirstFitMore(rows, s, ns, pos, pos[prev]);
  }

  /** A finished placement lies below MAXTABLE. */
  lemma AllBelow(rows: seq<Row>, s: seq<int>, p: Pack)
    requires Indices(rows, s) && PackOk(p, RowsAt(rows, s)) && |p.chk| <= MAXTABLE
    ensures BelowLimit(rows, s, p.pos)
  {
    hide RowOk, Owned;
    forall x, k | 0 <= x < |s| && 0 <= k < |rows[s[x]].froms| ensures p.pos[x] + rows[s[x]].froms[k] < MAXTABLE {
      assert Placed(p, RowsAt(rows, s)[x], p.pos[x]);
      assert CellOk(p, rows[s[x]], p.pos[x], k);
    }
  }

  class Packer {
    const nstates: nat
    const rows: seq<Row>
    const tally: seq<int>
    const width: seq<int>

    var order: array<int>
    var nentries: nat
    var base: array<int>
    var pos: array<int>
    var table: array<int>
    var check: array<int>
    var maxtable: nat
    var lowzero: nat
    var high: nat

    /** What TABLE, CHECK, POS, LOWZERO and HIGH hold. */
    ghost var P: Pack

    ghost predicate RowsGiven() {
      && |rows| == |tally| == |width|
      && (forall v :: 0 <= v < |rows| ==> RowOk(rows[v]) && tally[v] == |rows[v].froms| && width[v] == Span(rows[v].froms))
    }

    ghost predicate OrderReady()
      reads this, order
    {
      && RowsGiven() && nentries <= order.Length == |rows|
      && Sorted(width, tally, order[..nentries]) && Lists(tally, order[..nentries], |rows|)
    }

    constructor (nstates: nat, rows: seq<Row>)
      requires forall v :: 0 <= v < |rows| ==> RowOk(rows[v])
      ensures RowsGiven() && this.nstates == nstates && this.rows == rows
      ensures fresh(order) && fresh(base) && fresh(pos) && fresh(table) && fresh(check)
    {
      this.nstates := nstates;
      this.rows := rows;
      tally := seq(|rows|, v requires 0 <= v < |rows| => |rows[v].froms|);
      width := seq(|rows|, v requires 0 <= v < |rows| => Span(rows[v].froms));
      order := new int[0];
      base := new int[0];
      pos := new int[0];
      table := new int[0];
      check := new int[0];
      nentries, maxtable, lowzero, high := 0, 0, 0, 0;
    }

    /** sort_actions. */
    method SortActions()
      requires RowsGiven()
      modifies `order, `nentries
      ensures OrderReady() && fresh(order)
    {
      order := new int[|rows|];
      nentries := 0;
      for i := 0 to |rows|
        modifies `nentries, order
        invariant nentries <= i && order.Length == |rows|
        invariant Sorted(width, tally, order[..nentries]) && Lists(tally, order[..nentries], i)
      {
        if tally[i] > 0 {
          Insert(i);
        }
      }
    }

    /** The place of row `i` in the order `s`. */
    method FindPlace(i: nat, ghost s: seq<int>) returns (j: nat)
      requires i < |width| == |tally| && nentries <= order.Length
      requires s == order[..nentries] && Sorted(width, tally, s)
      ensures j <= nentries
      ensures forall x :: j <= x < |s| ==> !Before(width, tally, s[x], i)
      ensures j > 0 ==> Before(width, tally, s[j - 1], i)
    {
      var t, w := tally[i], width[i];
      j := nentries;
      while j > 0 && width[order[j - 1]] < w
        invariant j <= nentries
        invariant forall x :: j <= x < |s| ==> !Before(width, tally, s[x], i)
      {
        j := j - 1;
        assert order[j] == s[j];
      }
      while j > 0 && width[order[j - 1]] == w && tally[order[j - 1]] < t
        invariant j <= nentries && (j > 0 ==> width[s[j - 1]] >= w)
        invariant forall x :: j <= x < |s| ==> !Before(width, tally, s[x], i)
      {
        j := j - 1;
        assert order[j] == s[j];
        if j > 0 { WiderBelow(width, tally, s, j); }
      }
    }

    /** Moves the later rows up by one and puts row `i` at position `j`. */
    method ShiftIn(i: nat, j: nat)
      requires j <= nentries < order.Length
      modifies `nentries, order
      ensures nentries == old(nentries) + 1
      ensures order[..nentries] == Inserted(old(order[..nentries]), i, j)
    {
      ghost var s := order[..nentries];
      var k := nentries;
      while k > j
        modifies order
        invariant j <= k <= nentries
        invariant forall x :: 0 <= x < k ==> order[x] == s[x]
        invariant forall x :: k < x <= nentries ==> order[x] == s[x - 1]
      {
        order[k] := order[k - 1];
        k := k - 1;
      }
      order[j] := i;
      nentries := nentries + 1;
    }

    /** The body of sort_actions for row `i`. */
    method Insert(i: nat)
      requires RowsGiven() && i < |rows| && tally[i] > 0 && nentries <= i && order.Length == |rows|
      requires Sorted(width, tally, order[..nentries]) && Lists(tally, order[..nentries], i)
      modifies `nentries, order
      ensures nentries == old(nentries) + 1
      ensures Sorted(width, tally, order[..nentries]) && Lists(tally, order[..nentries], i + 1)
    {
      ghost var s := order[..nentries];
      var j := FindPlace(i, s);
      InsertKeeps(width, tally, s, i, j);
      ShiftIn(i, j);
    }

    // ----- Placing rows -----

    /** TABLE and CHECK hold the abstract table. */
    ghost predicate ArraysHold()
      reads this, table, check
    {
      && |P.chk| == |P.tab| == maxtable == table.Length == check.Length
      && P.low == lowzero && P.high == high
      && (forall loc :: 0 <= loc < maxtable ==> check[loc] == P.chk[loc] && table[loc] == P.tab[loc])
      && 0 < maxtable <= MAXTABLE && maxtable % 200 == 0
      && table != check && pos != table && pos != check
    }

    ghost predicate TableReady(e: nat)
      reads this, pos, table, check
    {
      && ArraysHold()
      && e <= pos.Length && |P.pos| == e
      && (forall x :: 0 <= x < e ==> pos[x] == P.pos[x])
    }

    /** The first displacement worth trying: the least one that keeps the row at or above LOWZERO. */
    method StartAt(from: seq<int>) returns (j: int)
      requires from != []
      ensures forall k :: 0 <= k < |from| ==> j >= lowzero - from[k]
      ensures exists k :: 0 <= k < |from| && j == lowzero - from[k]
    {
      j := lowzero - from[0];
      for k := 1 to |from|
        invariant forall m :: 0 <= m < k ==> j >= lowzero - from[m]
        invariant exists m :: 0 <= m < k && j == lowzero - from[m]
      {
        if lowzero - from[k] > j {
          j := lowzero - from[k];
        }
      }
    }

    /** The reallocation in pack_vector. */
    method Grow(loc: nat, ghost e: nat)
      requires TableReady(e) && maxtable <= loc < MAXTABLE
      modifies `table, `check, `maxtable, `P
      ensures TableReady(e) && fresh(table) && fresh(check)
      ensures maxtable > loc && maxtable >= old(maxtable) && P == Grown(old(P), maxtable)
    {
      var newmax := maxtable + 200;
      while newmax <= loc
        invariant newmax % 200 == 0 && maxtable < newmax <= loc + 200 && newmax <= MAXTABLE
      {
        newmax := newmax + 200;
      }
      var t, c := new int[newmax], new int[newmax];
      forall l | 0 <= l < newmax {
        t[l] := if l < maxtable then table[l] else 0;
      }
      forall l | 0 <= l < newmax {
        c[l] := if l < maxtable then check[l] else -1;
      }
      P := Grown(P, newmax);
      table, check, maxtable := t, c, newmax;
    }

    /** One round of the search in pack_vector: is the row free at displacement `j`? */
    method TryAt(from: seq<int>, j: int, e: nat) returns (ok: bool, fatal: bool)
      requires TableReady(e) && e <= pos.Length && j != 0
      requires forall k :: 0 <= k < |from| ==> j + from[k] >= 0
      modifies `table, `check, `maxtable, `P
      ensures TableReady(e) && (table == old(table) || fresh(table)) && (check == old(check) || fresh(check))
      ensures maxtable >= old(maxtable) && P == Grown(old(P), maxtable)
      ensures !fatal ==> (ok <==> Fits(P, from, j))
      ensures fatal ==> exists k :: 0 <= k < |from| && j + from[k] >= MAXTABLE
      ensures !fatal && from != [] ==> j + from[0] < MAXTABLE
      ensures ok ==> !fatal && forall k :: 0 <= k < |from| ==> j + from[k] < maxtable
    {
      ok, fatal := true, false;
      var k := 0;
      assert P == Grown(P, maxtable);
      while ok && k < |from|
        invariant k <= |from| && TableReady(e) && (k > 0 ==> j + from[0] < MAXTABLE)
        invariant k == 0 ==> ok
        invariant (table == old(table) || fresh(table)) && (check == old(check) || fresh(check))
        invariant maxtable >= old(maxtable) && P == Grown(old(P), maxtable)
        invariant ok ==> forall m :: 0 <= m < k ==> FreeCell(P.chk, j + from[m]) && j + from[m] < maxtable
        invariant !ok ==> exists m :: 0 <= m < |from| && !FreeCell(P.chk, j + from[m])
        decreases ok, |from| - k
      {
        var loc := j + from[k];
        if loc >= maxtable {
          if loc >= MAXTABLE {
            return false, true;
          }
          Grow(loc, e);
        }
        if check[loc] != -1 {
          ok := false;
        }
        k := k + 1;
      }
      if ok {
        ok := Unused(j, e);
      }
    }

    /** Has no row got displacement `j` yet? */
    method Unused(j: int, e: nat) returns (ok: bool)
      requires TableReady(e)
      ensures ok <==> j !in P.pos
    {
      ok := true;
      var k := 0;
      while ok && k < e
        invariant k <= e
        invariant ok ==> forall x :: 0 <= x < k ==> P.pos[x] != j
        invariant !ok ==> j in P.pos
        decreases ok, e - k
      {
        if pos[k] == j {
          ok := false;
        }
        k := k + 1;
      }
    }

    /** The writes of pack_vector. */
    method WriteRow(v: Row, j: int, ghost e: nat)
      requires TableReady(e) && RowOk(v) && high < maxtable
      requires forall k :: 0 <= k < |v.froms| ==> 0 <= j + v.froms[k] < maxtable
      modifies table, check, `high, `P
      ensures ArraysHold() && high < maxtable
      ensures Written(old(P), v, j, P) && P.low == old(P.low)
    {
      ghost var p := P;
      var k := 0;
      while k < |v.froms|
        modifies table, check, `high, `P
        invariant k <= |v.froms| && ArraysHold() && high < maxtable
        invariant WrittenUpTo(p, v, j, k, P) && P.low == p.low && P.pos == p.pos
      {
        var loc := j + v.froms[k];
        WriteStep(p, v, j, k, P);
        table[loc] := v.tos[k];
        check[loc] := v.froms[k];
        if loc > high { high := loc; }
        P := P.(chk := P.chk[loc := v.froms[k]], tab := P.tab[loc := v.tos[k]], high := high);
        k := k + 1;
      }
      ghost var q := P;
      P := P.(pos := P.pos + [j]);
      forall m | 0 <= m < |v.froms| ensures CellOk(P, v, j, m) {
        assert CellOk(q, v, j, m);
      }
    }

    /** The displacement where pack_vector starts, and why nothing before it can fit. */
    method FirstCandidate(from: seq<int>, ghost done: seq<Row>) returns (j: int)
      requires ArraysHold() && PackOk(P, done) && from != []
      ensures P == Grown(P, maxtable)
      ensures forall m :: 0 <= m < |from| ==> j + from[m] >= 0
      ensures forall i :: i < j ==> !Fits(P, from, i)
    {
      j := StartAt(from);
      ghost var k :| 0 <= k < |from| && j == lowzero - from[k];
      forall i | i < j ensures !Fits(P, from, i) {
        StartSkipsNothing(P, done, from, k, i);
      }
    }

    /** pack_vector: first fit. */
    method PackVector(v: Row, e: nat, ghost done: seq<Row>) returns (ok: bool, place: int)
      requires TableReady(e) && PackOk(P, done) && RowOk(v) && v.froms != []
      modifies `table, `check, `maxtable, `lowzero, `high, `P, table, check
      ensures (table == old(table) || fresh(table)) && (check == old(check) || fresh(check))
      ensures ok ==> PackOk(P, done + [v]) && P.pos == old(P.pos) + [place]
      ensures ok ==> ArraysHold()
      ensures ok ==> Fits(old(P), v.froms, place) && forall j :: j < place ==> !Fits(old(P), v.froms, j)
      ensures !ok ==> forall j :: Fits(old(P), v.froms, j) ==> Reaches(v.froms, j)
    {
      ghost var p := P;
      var j := FirstCandidate(v.froms, done);
      hide Grown, PackOk, Fits, RowOk, ArraysHold;
      while true
        invariant TableReady(e) && PackOk(P, done)
        invariant (table == old(table) || fresh(table)) && (check == old(check) || fresh(check))
        invariant maxtable >= |p.chk| && P == Grown(p, maxtable)
        invariant forall m :: 0 <= m < |v.froms| ==> j + v.froms[m] >= 0
        invariant forall i :: i < j ==> !Fits(p, v.froms, i)
        decreases MAXTABLE + 1 - j
      {
        if j != 0 {
          ghost var m := maxtable;
          var fatal;
          ok, fatal := TryAt(v.froms, j, e);
          GrownTwice(p, done, m, maxtable);
          if fatal {
            return false, 0;
          }
          if ok {
            PlaceAt(v, j, e, done);
            return true, j;
          }
        }
        assert j == 0 ==> !Fits(p, v.froms, j) by { ZeroNeverFits(p, v.froms); }
        j := j + 1;
      }
    }

    /** The accepting round of pack_vector. */
    method PlaceAt(v: Row, j: int, ghost e: nat, ghost done: seq<Row>)
      requires TableReady(e) && PackOk(P, done) && RowOk(v) && v.froms != [] && Fits(P, v.froms, j)
      requires forall k :: 0 <= k < |v.froms| ==> j + v.froms[k] < maxtable
      modifies table, check, `lowzero, `high, `P
      ensures ArraysHold() && PackOk(P, done + [v]) && P.pos == old(P.pos) + [j]
    {
      ghost var p := P;
      forall k | 0 <= k < |v.froms| ensures 0 <= j + v.froms[k] {
        assert FreeCell(P.chk, j + v.froms[k]);
      }
      WriteRow(v, j, e);
      WrittenOk(p, done, v, j, P);
      RaiseLowZero(done + [v]);
    }

    /** The scan for the first free cell. */
    method RaiseLowZero(ghost done: seq<Row>)
      requires ArraysHold() && PackOk(P, done)
      modifies `lowzero, `P
      ensures ArraysHold() && PackOk(P, done) && P == old(P).(low := lowzero)
      ensures lowzero < maxtable ==> check[lowzero] == -1
    {
      while lowzero < maxtable && check[lowzero] != -1
        modifies `lowzero
        invariant lowzero <= maxtable && forall loc :: 0 <= loc < lowzero ==> P.chk[loc] != -1
      {
        lowzero := lowzero + 1;
      }
      ghost var p := P;
      P := P.(low := lowzero);
      LowRaised(p, done, lowzero);
    }

    /** matching_vector: an identical row placed earlier, or -1. Columns and conflict rows are not looked up. */
    method MatchingVector(vector: nat) returns (match_: int)
      requires OrderReady() && vector < nentries
      ensures Indices(rows, order[..nentries])
      ensures match_ >= 0 ==> order[vector] < 2 * nstates
      ensures match_ >= 0 ==> exists prev: nat :: LastEqual(rows, order[..nentries], vector, prev) && order[prev] == match_
      ensures match_ < 0 ==> !Shares(rows, order[..nentries], nstates, vector)
    {
      ghost var s := order[..nentries];
      var i := order[vector];
      assert s[vector] == i;
      if i >= 2 * nstates {
        return -1;
      }
      var t, w := tally[i], width[i];
      var prev := vector;
      while prev > 0
        invariant prev <= vector
        invariant forall x :: prev <= x < vector ==> rows[order[x]] != rows[i]
      {
        prev := prev - 1;
        var j := order[prev];
        assert s[prev] == j;
        if width[j] != w || tally[j] != t {
          forall x | 0 <= x <= prev ensures rows[order[x]] != rows[i] {
            assert s[x] == order[x];
            DifferentKeys(rows, width, tally, s, x, prev, vector);
          }
          return -1;
        }
        var same := SameRow(rows[i], rows[j]);
        if same {
          assert LastEqual(rows, s, vector, prev);
          return j;
        }
      }
      return -1;
    }

    /** After placing the first `i` rows of the order `s`. */
    ghost predicate Progress(i: nat, s: seq<int>)
      reads this, order, base, pos, table, check
    {
      && TableReady(i) && i <= nentries == |s| <= order.Length && order[..nentries] == s
      && (forall x :: 0 <= x < |s| ==> 0 <= s[x] < |rows|)
      && PackOk(P, RowsAt(rows, s[..i])) && FirstFitted(rows, s, nstates, P.pos)
      && pos.Length == nentries && base.Length == |rows| && BaseOk(base[..], s, i, P.pos)
      && base != pos && base != table && base != check && base != order && pos != order && table != order && check != order
    }

    /** An empty table of 1000 cells. */
    method NewTable()
      modifies `table, `check, `maxtable, `lowzero, `high, `P
      ensures fresh(table) && fresh(check) && table != check && P.pos == [] && PackOk(P, [])
      ensures pos != table && pos != check ==> ArraysHold()
    {
      maxtable := 1000;
      table := new int[maxtable];
      check := new int[maxtable](_ => -1);
      lowzero := 0;
      high := 0;
      P := Pack(check[..], table[..], [], 0, 0);
    }

    /** The setup of pack_table. */
    method StartTable()
      requires nentries <= order.Length && forall x :: 0 <= x < nentries ==> 0 <= order[..nentries][x] < |rows|
      modifies `base, `pos, `table, `check, `maxtable, `lowzero, `high, `P
      ensures Progress(0, order[..nentries])
      ensures fresh(base) && fresh(pos) && fresh(table) && fresh(check)
    {
      hide PackOk;
      base := new int[|rows|](_ => 0);
      pos := new int[nentries];
      NewTable();
      assert RowsAt(rows, order[..nentries][..0]) == [];
    }

    /** Row `i` of the order has got displacement `place`, which the arrays do not show yet. */
    ghost predicate HasPlace(i: nat, place: int, s: seq<int>)
      reads this, order, base, pos, table, check
    {
      && ArraysHold() && i < nentries == |s| <= order.Length && order[..nentries] == s && Distinct(s)
      && (forall x :: 0 <= x < |s| ==> 0 <= s[x] < |rows|)
      && pos.Length == nentries && base.Length == |rows| && |P.pos| == i + 1 && P.pos[i] == place
      && PackOk(P, RowsAt(rows, s[..i + 1])) && FirstFitted(rows, s, nstates, P.pos) && BaseOk(base[..], s, i, P.pos[..i])
      && (forall x :: 0 <= x < i ==> pos[x] == P.pos[x])
      && base != pos && base != table && base != check && base != order && pos != order && table != order && check != order
    }

    /** The end of a round of pack_table: remember where the row went. */
    method Record(i: nat, place: int, ghost s: seq<int>)
      requires HasPlace(i, place, s)
      modifies pos, base
      ensures Progress(i + 1, s)
    {
      hide PackOk, FirstFitted;
      BaseStep(base[..], s, i, P.pos[..i], place);
      ghost var b := base[..];
      assert P.pos == P.pos[..i] + [place];
      assert order[i] == s[i];
      pos[i] := place;
      base[order[i]] := place;
      assert base[..] == b[s[i] := place];
    }

    /** A row that no earlier one equals is placed by first fit. */
    method PlaceFresh(i: nat, ghost s: seq<int>) returns (ok: bool, place: int)
      requires OrderReady() && Progress(i, s) && i < nentries && Distinct(s) && !Shares(rows, s, nstates, i)
      modifies table, check, `table, `check, `maxtable, `lowzero, `high, `P
      ensures (table == old(table) || fresh(table)) && (check == old(check) || fresh(check))
      ensures ok ==> HasPlace(i, place, s)
      ensures !ok ==> TooLong(rows, s, nstates, old(P.pos))
    {
      hide Sorted, PackOk, Fits, Exact, RowOk, FirstFitted, Shares, TooLong, Reaches;
      ghost var p := P;
      ghost var done := RowsAt(rows, s[..i]);
      var v := rows[order[i]];
      assert order[i] == s[i];
      assert RowsAt(rows, s[..i + 1]) == done + [v];
      RowsNonempty(s, i);
      ok, place := PackVector(v, i, done);
      if ok {
        FirstFitGoesOn(rows, s, nstates, p, i, place);
        assert P.pos[..i] == p.pos;
      } else {
        StuckIsTooLong(rows, s, nstates, p, i);
      }
    }

    /** A row equal to an earlier one shares its displacement. */
    ghost method Share(i: nat, state: int, s: seq<int>)
      requires OrderReady() && Progress(i, s) && i < nentries && Distinct(s) && s[i] < 2 * nstates
      requires exists prev: nat :: LastEqual(rows, s, i, prev) && s[prev] == state
      modifies `P
      ensures 0 <= state < base.Length && HasPlace(i, base[state], s)
    {
      hide Sorted, PackOk, Exact, RowOk, FirstFitted;
      ghost var prev: nat :| LastEqual(rows, s, i, prev) && s[prev] == state;
      ghost var p := P;
      assert RowsAt(rows, s[..i + 1]) == RowsAt(rows, s[..i]) + [rows[s[i]]];
      SharedOk(P, RowsAt(rows, s[..i]), rows[s[i]], prev);
      SharingGoesOn(rows, s, nstates, P.pos, i, prev);
      P := P.(pos := P.pos + [P.pos[prev]]);
      assert P.pos[..i] == p.pos;
    }

    /** One round of pack_table. */
    method PlaceEntry(i: nat, ghost s: seq<int>) returns (ok: bool)
      requires OrderReady() && Progress(i, s) && i < nentries && Distinct(s)
      modifies base, pos, table, check, `table, `check, `maxtable, `lowzero, `high, `P
      ensures (table == old(table) || fresh(table)) && (check == old(check) || fresh(check))
      ensures ok ==> Progress(i + 1, s)
      ensures !ok ==> TooLong(rows, s, nstates, old(P.pos)) && nentries <= order.Length && order[..nentries] == s
    {
      hide Sorted, PackOk, Fits, Exact, RowOk, FirstFitted, Shares, TooLong, Reaches;
      var state := MatchingVector(i);
      var place;
      assert order[i] == s[i];
      if state < 0 {
        ok, place := PlaceFresh(i, s);
        if !ok { return; }
      } else {
        ghost var prev: nat :| LastEqual(rows, s, i, prev) && order[prev] == state;
        assert s[prev] == state;
        Share(i, state, s);
        ok, place := true, base[state];
      }
      Record(i, place, s);
    }

    lemma RowsNonempty(s: seq<int>, i: nat)
      requires RowsGiven() && Lists(tally, s, |rows|) && i < |s|
      ensures 0 <= s[i] < |rows| && RowOk(rows[s[i]]) && rows[s[i]].froms != []
    {
      assert s[i] in s;
    }

    lemma Finished(i: nat, s: seq<int>)
      requires OrderReady() && Progress(i, s) && i == nentries
      ensures ArraysHold() && base.Length == |rows| && Exact(rows, base[..], P) && P.high < |P.chk|
      ensures FirstFitted(rows, s, nstates, P.pos) && Packable(rows, nstates)
    {
      assert s[..i] == s;
      PackedExactly(rows, tally, s, base[..], P);
      AllBelow(rows, s, P);
      OrderPlaces(s);
    }

    lemma OrderPlaces(s: seq<int>)
      requires RowsGiven() && Sorted(width, tally, s) && Lists(tally, s, |rows|)
      ensures PlacingOrder(rows, s)
    {
      assert width == Widths(rows) && tally == Tallies(rows);
    }

    /** pack_table: the rows are placed by first fit and the tables are exact, unless a row reaches MAXTABLE in this way;
        which of the two it is depends on the rows alone, and they have room if they are Roomy. */
    method PackTable() returns (ok: bool)
      requires OrderReady()
      modifies `base, `pos, `table, `check, `maxtable, `lowzero, `high, `P
      ensures ok ==> ArraysHold() && base.Length == |rows| && Exact(rows, base[..], P) && P.high < |P.chk|
      ensures ok ==> FirstFitted(rows, order[..nentries], nstates, P.pos)
      ensures ok <==> Packable(rows, nstates)
      ensures Roomy(rows) ==> ok
    {
      hide Progress, Exact, TooLong, PackOk, Sorted, FirstFitted, Packable, Roomy;
      ghost var s := order[..nentries];
      assert forall x :: 0 <= x < nentries ==> s[x] in s;
      StartTable();
      var i := 0;
      while i < nentries
        invariant i <= nentries && Progress(i, s) && OrderReady()
        invariant fresh(base) && fresh(pos) && fresh(table) && fresh(check)
      {
        ghost var p := P.pos;
        ok := PlaceEntry(i, s);
        if !ok {
          OrderPlaces(s);
          TooLongIsUnpackable(rows, s, nstates, p);
          TooLongIsNotRoomy(rows, s, nstates, p);
          return;
        }
        i := i + 1;
      }
      ok := true;
      Finished(i, s);
    }
  }
}
