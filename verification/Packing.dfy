/** Row-displacement compression (output.c): sparse rows are laid over each other in one table. */
module Packing {
  import opened Pigeonhole

  /** A sparse row: value `tos[k]` in column `froms[k]`. */
  datatype Row = Row(froms: seq<int>, tos: seq<int>)

  ghost predicate RowOk(v: Row) {
    && |v.froms| == |v.tos|
    && (forall k :: 0 <= k < |v.froms| ==> v.froms[k] >= 0)
    && Distinct(v.froms)
  }

  /** The table under construction after some rows were placed: CHECK and TABLE, the displacement of each placed row,
      LOWZERO and HIGH. */
  datatype Pack = Pack(chk: seq<int>, tab: seq<int>, pos: seq<int>, low: nat, high: nat)

  /** Column `k` of row `v` placed at displacement `j` owns cell `loc`. */
  predicate Owns(v: Row, j: int, k: int, loc: int) {
    0 <= k < |v.froms| && loc == j + v.froms[k]
  }

  /** Row `v` sits at displacement `j`. */
  ghost predicate Placed(p: Pack, v: Row, j: int) {
    && j != 0 && |v.froms| == |v.tos|
    && forall k :: 0 <= k < |v.froms| ==> CellOk(p, v, j, k)
  }

  predicate CellOk(p: Pack, v: Row, j: int, k: int)
    requires 0 <= k < |v.froms| == |v.tos|
  {
    && 0 <= j + v.froms[k] <= p.high && j + v.froms[k] < |p.chk| == |p.tab|
    && p.chk[j + v.froms[k]] == v.froms[k] && p.tab[j + v.froms[k]] == v.tos[k]
  }

  /** Some placed row owns the cell and left its column number there. */
  ghost predicate Owned(p: Pack, rows: seq<Row>, loc: nat)
    requires |p.pos| == |rows|
  {
    exists x, k :: 0 <= x < |rows| && Owns(rows[x], p.pos[x], k, loc) && loc < |p.chk| && p.chk[loc] == rows[x].froms[k]
  }

  /** All placed rows can be read back, every occupied cell belongs to one of them, different rows have
      different displacements, and below LOWZERO everything is occupied. */
  ghost predicate PackOk(p: Pack, rows: seq<Row>) {
    && |p.chk| == |p.tab| && |p.pos| == |rows| && p.high < |p.chk|
    && (forall x :: 0 <= x < |rows| ==> RowOk(rows[x]) && rows[x].froms != [] && Placed(p, rows[x], p.pos[x]))
    && (forall loc :: 0 <= loc < |p.chk| && p.chk[loc] != -1 ==> Owned(p, rows, loc))
    && (forall x, y :: 0 <= x < y < |rows| && p.pos[x] == p.pos[y] ==> rows[x] == rows[y])
    && p.low <= |p.chk| && (forall loc :: 0 <= loc < p.low ==> p.chk[loc] != -1)
  }

  /** The driver's lookup succeeds. */
  predicate Hit(p: Pack, j: int, c: int) {
    j != 0 && 0 <= j + c <= p.high && j + c < |p.chk| == |p.tab| && p.chk[j + c] == c
  }

  /** Compression is exact: through its displacement a row finds exactly its own columns, with their values. */
  lemma CompressionIsExact(p: Pack, rows: seq<Row>, x: nat, c: int)
    requires PackOk(p, rows) && x < |rows| && c >= 0
    ensures Hit(p, p.pos[x], c) <==> c in rows[x].froms
    ensures Hit(p, p.pos[x], c) ==>
              exists k :: 0 <= k < |rows[x].froms| && rows[x].froms[k] == c && p.tab[p.pos[x] + c] == rows[x].tos[k]
  {
    var v, j := rows[x], p.pos[x];
    assert Placed(p, v, j);
    if Hit(p, j, c) {
      assert Owned(p, rows, j + c);
      var y, k :| 0 <= y < |rows| && Owns(rows[y], p.pos[y], k, j + c) && p.chk[j + c] == rows[y].froms[k];
      assert p.pos[y] == p.pos[x];
      assert rows[y] == rows[x];
      assert CellOk(p, v, j, k);
    }
    if c in v.froms {
      var k :| 0 <= k < |v.froms| && v.froms[k] == c;
      assert CellOk(p, v, j, k);
    }
  }

  // ----- First fit -----

  predicate FreeCell(chk: seq<int>, loc: int) {
    loc >= 0 && (loc >= |chk| || chk[loc] == -1)
  }

  /** A row with columns `froms` may be placed at displacement `j`. */
  ghost predicate Fits(p: Pack, froms: seq<int>, j: int) {
    && j != 0 && j !in p.pos
    && forall k :: 0 <= k < |froms| ==> FreeCell(p.chk, j + froms[k])
  }

  /** Growing the table by free cells. */
  function Grown(p: Pack, n: nat): Pack
    requires n >= |p.chk|
  {
    p.(chk := p.chk + seq(n - |p.chk|, i => -1), tab := p.tab + seq(n - |p.chk|, i => 0))
  }

  lemma GrownOk(p: Pack, rows: seq<Row>, n: nat)
    requires PackOk(p, rows) && n >= |p.chk|
    ensures PackOk(Grown(p, n), rows)
    ensures forall froms, j :: Fits(p, froms, j) <==> Fits(Grown(p, n), froms, j)
  {
    var p' := Grown(p, n);
    forall x | 0 <= x < |rows| ensures Placed(p', rows[x], p'.pos[x]) {
      assert Placed(p, rows[x], p.pos[x]);
      forall k | 0 <= k < |rows[x].froms| ensures CellOk(p', rows[x], p'.pos[x], k) {
        assert CellOk(p, rows[x], p.pos[x], k);
      }
    }
    forall loc | 0 <= loc < |p'.chk| && p'.chk[loc] != -1 ensures Owned(p', rows, loc) {
      assert Owned(p, rows, loc);
    }
    forall froms, j ensures Fits(p, froms, j) <==> Fits(p', froms, j) {
      assert forall loc :: FreeCell(p.chk, loc) <==> FreeCell(p'.chk, loc);
    }
  }

  /** `p'` is `p` after writing row `v` at displacement `j`: its cells hold the row, all others are as before. */
  ghost predicate Written(p: Pack, v: Row, j: int, p': Pack) {
    && |p'.chk| == |p'.tab| == |p.chk| == |p.tab| && p'.pos == p.pos + [j]
    && |v.froms| == |v.tos| && (forall k :: 0 <= k < |v.froms| ==> CellOk(p', v, j, k))
    && (forall loc :: 0 <= loc < |p.chk| && !InRow(v, j, loc) ==>
          p'.chk[loc] == p.chk[loc] && p'.tab[loc] == p.tab[loc])
    && p.high <= p'.high < |p'.chk|
  }

  ghost predicate InRow(v: Row, j: int, loc: int) {
    exists k :: Owns(v, j, k, loc)
  }

  lemma FitsFree(p: Pack, v: Row, j: int)
    requires Fits(p, v.froms, j)
    ensures forall k, loc :: 0 <= loc < |p.chk| && Owns(v, j, k, loc) ==> p.chk[loc] == -1
  {
    forall k, loc | 0 <= loc < |p.chk| && Owns(v, j, k, loc) ensures p.chk[loc] == -1 {
      assert FreeCell(p.chk, j + v.froms[k]);
    }
  }

  lemma OwnedAfter(p: Pack, rows: seq<Row>, v: Row, j: int, p': Pack, loc: nat)
    requires |p.pos| == |rows| && Written(p, v, j, p') && loc < |p.chk| && p'.chk[loc] != -1
    requires p.chk[loc] != -1 ==> Owned(p, rows, loc)
    ensures |p'.pos| == |rows + [v]| && Owned(p', rows + [v], loc)
  {
    var rows' := rows + [v];
    if InRow(v, j, loc) {
      var k :| Owns(v, j, k, loc);
      assert CellOk(p', v, j, k);
      assert rows'[|rows|] == v && p'.pos[|rows|] == j;
      assert Owns(rows'[|rows|], p'.pos[|rows|], k, loc);
    } else {
      var x, k :| 0 <= x < |rows| && Owns(rows[x], p.pos[x], k, loc) && p.chk[loc] == rows[x].froms[k];
      assert rows'[x] == rows[x] && p'.pos[x] == p.pos[x];
      assert Owns(rows'[x], p'.pos[x], k, loc);
    }
  }

  lemma NewPlaced(p: Pack, v: Row, j: int, p': Pack)
    requires Written(p, v, j, p') && j != 0
    ensures Placed(p', v, j)
  {}

  lemma WrittenOk(p: Pack, rows: seq<Row>, v: Row, j: int, p': Pack)
    requires PackOk(p, rows) && RowOk(v) && v.froms != [] && Fits(p, v.froms, j)
    requires Written(p, v, j, p') && p'.low == p.low
    ensures PackOk(p', rows + [v])
  {
    FitsFree(p, v, j);
    NewPlaced(p, v, j, p');
    LowKept(p, v, j, p');
    hide RowOk, Placed, Owned, Owns, CellOk, InRow;
    var rows' := rows + [v];
    forall x: nat | x < |rows'| ensures RowOk(rows'[x]) && rows'[x].froms != [] && Placed(p', rows'[x], p'.pos[x]) {
      if x < |rows| { PlacedKept(p, rows[x], p.pos[x], v, j, p'); }
    }
    forall loc: nat | loc < |p'.chk| && p'.chk[loc] != -1 ensures Owned(p', rows', loc) {
      OwnedAfter(p, rows, v, j, p', loc);
    }
  }

  lemma LowKept(p: Pack, v: Row, j: int, p': Pack)
    requires Written(p, v, j, p') && Fits(p, v.froms, j)
    requires p.low <= |p.chk| && forall loc :: 0 <= loc < p.low ==> p.chk[loc] != -1
    ensures forall loc :: 0 <= loc < p.low ==> p'.chk[loc] != -1
  {
    FitsFree(p, v, j);
  }

  lemma PlacedKept(p: Pack, w: Row, i: int, v: Row, j: int, p': Pack)
    requires RowOk(w) && Placed(p, w, i) && Written(p, v, j, p')
    requires forall k, loc :: 0 <= loc < |p.chk| && Owns(v, j, k, loc) ==> p.chk[loc] == -1
    ensures Placed(p', w, i)
  {
    forall k | 0 <= k < |w.froms| ensures CellOk(p', w, i, k) {
      assert CellOk(p, w, i, k);
      assert !InRow(v, j, i + w.froms[k]);
    }
  }

  /** A row identical to a placed one shares its displacement. */
  lemma SharedOk(p: Pack, rows: seq<Row>, v: Row, y: nat)
    requires PackOk(p, rows) && y < |rows| && rows[y] == v
    ensures PackOk(p.(pos := p.pos + [p.pos[y]]), rows + [v])
  {
    var p' := p.(pos := p.pos + [p.pos[y]]);
    var rows' := rows + [v];
    forall x | 0 <= x < |rows'| ensures RowOk(rows'[x]) && rows'[x].froms != [] && Placed(p', rows'[x], p'.pos[x]) {
      var z := if x < |rows| then x else y;
      assert Placed(p, rows[z], p.pos[z]);
      forall k | 0 <= k < |rows'[x].froms| ensures CellOk(p', rows'[x], p'.pos[x], k) {
        assert CellOk(p, rows[z], p.pos[z], k);
      }
    }
    forall loc | 0 <= loc < |p'.chk| && p'.chk[loc] != -1 ensures Owned(p', rows', loc) {
      assert Owned(p, rows, loc);
      var x, k :| 0 <= x < |rows| && Owns(rows[x], p.pos[x], k, loc) && p.chk[loc] == rows[x].froms[k];
      assert Owns(rows'[x], p'.pos[x], k, loc);
    }
  }

  /** No displacement below the starting point can fit: some cell of the row would lie below LOWZERO. */
  lemma StartSkipsNothing(p: Pack, rows: seq<Row>, froms: seq<int>, k: nat, j: int)
    requires PackOk(p, rows) && k < |froms| && j < p.low - froms[k]
    ensures !Fits(p, froms, j)
  {
    assert !FreeCell(p.chk, j + froms[k]);
  }
}
