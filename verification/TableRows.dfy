/** From the cells of a state to sparse rows, and from packed rows to the driver's lookups (output.c). */
module TableRows {
  import opened Pigeonhole
  import opened Packing
  import opened Packers
  import opened DriverMachine
  import opened TokenActions

  /** The row has value t in column c. */
  ghost predicate HasEntry(v: Row, c: int, t: int) {
    exists k :: 0 <= k < |v.froms| && k < |v.tos| && v.froms[k] == c && v.tos[k] == t
  }

  /** Different values for different tokens. */
  ghost predicate DistinctValues(val: seq<int>, nt: nat) {
    nt <= |val| && (forall x :: 0 <= x < nt ==> val[x] >= 0) && forall x, y :: 0 <= x < y < nt ==> val[x] != val[y]
  }

  /** Entry k of a row comes from the nonzero cell of a token below n. */
  ghost predicate FromCell(v: Row, k: nat, cells: seq<int>, nt: nat, part: nat, val: seq<int>, off: int, n: nat)
    requires k < |v.froms| == |v.tos| && part < 3 && n <= nt <= |val| && |cells| == 3 * nt
  {
    exists x: nat :: x < n && Part(cells, nt, part, x) != 0 && v.froms[k] == val[x] && v.tos[k] == Part(cells, nt, part, x) - off
  }

  /** The nonzero cells of the first n tokens, in the order of the tokens. */
  function RowOf(cells: seq<int>, nt: nat, part: nat, val: seq<int>, off: int, n: nat): Row
    requires part < 3 && n <= nt <= |val| && |cells| == 3 * nt
  {
    if n == 0 then Row([], [])
    else
      var v, c := RowOf(cells, nt, part, val, off, n - 1), Part(cells, nt, part, n - 1);
      if c != 0 then Row(v.froms + [val[n - 1]], v.tos + [c - off]) else v
  }

  /** The row lists the nonzero cells of the first n tokens, by token value and less the offset. */
  ghost predicate RowHolds(v: Row, cells: seq<int>, nt: nat, part: nat, val: seq<int>, off: int, n: nat) {
    && part < 3 && n <= nt <= |val| && |cells| == 3 * nt && RowOk(v) && v == RowOf(cells, nt, part, val, off, n)
    && (forall k: nat :: k < |v.froms| ==> FromCell(v, k, cells, nt, part, val, off, n))
    && (forall x: nat :: x < n && Part(cells, nt, part, x) != 0 ==> HasEntry(v, val[x], Part(cells, nt, part, x) - off))
  }

  lemma RowMore(v: Row, cells: seq<int>, nt: nat, part: nat, val: seq<int>, off: int, n: nat, v': Row)
    requires DistinctValues(val, nt) && RowHolds(v, cells, nt, part, val, off, n) && n < nt
    requires var c := Part(cells, nt, part, n); v' == if c != 0 then Row(v.froms + [val[n]], v.tos + [c - off]) else v
    ensures RowHolds(v', cells, nt, part, val, off, n + 1)
  {
    hide Part, HasEntry, DistinctValues, RowOk, FromCell;
    var c, n' := Part(cells, nt, part, n), n + 1;
    ValuesSize(val, nt);
    RowSize(v);
    forall k: nat | k < |v.froms| ensures v.froms[k] != val[n] && k < |v'.froms| && FromCell(v', k, cells, nt, part, val, off, n') {
      FromKept(v, k, cells, nt, part, val, off, n, v');
    }
    if c != 0 {
      NewEntry(v, val, nt, n, c - off);
      FromNew(v', |v.froms|, cells, nt, part, val, off, n);
    }
    forall x: nat | x < n' && Part(cells, nt, part, x) != 0 ensures HasEntry(v', val[x], Part(cells, nt, part, x) - off) {
      if x < n { EntryKept(v, v', val[x], Part(cells, nt, part, x) - off); }
    }
  }

  lemma ValuesSize(val: seq<int>, nt: nat)
    requires DistinctValues(val, nt)
    ensures nt <= |val|
  {}

  lemma RowSize(v: Row)
    requires RowOk(v)
    ensures |v.froms| == |v.tos|
  {}

  lemma FromKept(v: Row, k: nat, cells: seq<int>, nt: nat, part: nat, val: seq<int>, off: int, n: nat, v': Row)
    requires k < |v.froms| == |v.tos| && part < 3 && n < nt <= |val| && |cells| == 3 * nt && FromCell(v, k, cells, nt, part, val, off, n)
    requires DistinctValues(val, nt) && v.froms <= v'.froms && v.tos <= v'.tos && |v'.froms| == |v'.tos|
    ensures v.froms[k] != val[n] && FromCell(v', k, cells, nt, part, val, off, n + 1)
  {
    hide Part;
    assert v'.froms[k] == v.froms[k] && v'.tos[k] == v.tos[k];
  }

  lemma FromNew(v: Row, k: nat, cells: seq<int>, nt: nat, part: nat, val: seq<int>, off: int, n: nat)
    requires k < |v.froms| == |v.tos| && part < 3 && n < nt <= |val| && |cells| == 3 * nt
    requires Part(cells, nt, part, n) != 0 && v.froms[k] == val[n] && v.tos[k] == Part(cells, nt, part, n) - off
    ensures FromCell(v, k, cells, nt, part, val, off, n + 1)
  {
    hide Part;
    assert n < n + 1;
  }

  lemma NewEntry(v: Row, val: seq<int>, nt: nat, n: nat, t: int)
    requires RowOk(v) && DistinctValues(val, nt) && n < nt <= |val| && forall k: nat :: k < |v.froms| ==> v.froms[k] != val[n]
    ensures RowOk(Row(v.froms + [val[n]], v.tos + [t])) && HasEntry(Row(v.froms + [val[n]], v.tos + [t]), val[n], t)
  {
    var v' := Row(v.froms + [val[n]], v.tos + [t]);
    assert v'.froms[|v.froms|] == val[n] && v'.tos[|v.froms|] == t;
  }

  lemma EntryKept(v: Row, v': Row, c: int, t: int)
    requires HasEntry(v, c, t) && v.froms <= v'.froms && v.tos <= v'.tos
    ensures HasEntry(v', c, t)
  {
    var k :| 0 <= k < |v.froms| && k < |v.tos| && v.froms[k] == c && v.tos[k] == t;
    assert v'.froms[k] == c && v'.tos[k] == t;
  }

  /** One of the three loops of token_actions that collect froms and tos. */
  method ActionRow(actionrow: array<int>, nt: nat, part: nat, val: seq<int>, off: int) returns (v: Row)
    requires part < 3 && actionrow.Length == 3 * nt && DistinctValues(val, nt)
    ensures RowHolds(v, actionrow[..], nt, part, val, off, nt)
  {
    v := Row([], []);
    var j := 0;
    var at := if part == 0 then 0 else if part == 1 then nt else 2 * nt;
    while j < nt
      invariant j <= nt && RowHolds(v, actionrow[..], nt, part, val, off, j)
    {
      assert actionrow[at + j] == Part(actionrow[..], nt, part, j);
      RowMore(v, actionrow[..], nt, part, val, off, j,
        if actionrow[at + j] != 0 then Row(v.froms + [val[j]], v.tos + [actionrow[at + j] - off]) else v);
      if actionrow[at + j] != 0 {
        v := Row(v.froms + [val[j]], v.tos + [actionrow[at + j] - off]);
      }
      j := j + 1;
    }
  }

  /** One entry for each of some tokens, under its value. */
  ghost predicate TokenRow(v: Row, nt: nat, val: seq<int>) {
    nt <= |val| && |v.froms| <= nt && forall k: nat :: k < |v.froms| ==> exists x: nat :: x < nt && v.froms[k] == val[x]
  }

  /** A row has at most one entry for each token. */
  lemma RowFroms(v: Row, cells: seq<int>, nt: nat, part: nat, val: seq<int>, off: int)
    requires DistinctValues(val, nt) && RowHolds(v, cells, nt, part, val, off, nt)
    ensures TokenRow(v, nt, val)
  {
    hide Part, HasEntry, Distinct;
    var used := val[..nt];
    forall k: nat | k < |v.froms| ensures v.froms[k] in used && exists x: nat :: x < nt && v.froms[k] == val[x] {
      assert FromCell(v, k, cells, nt, part, val, off, nt);
      var x: nat :| x < nt && v.froms[k] == val[x];
      assert used[x] == v.froms[k];
    }
    DistinctAmong(v.froms, used);
  }

  /** What a row says about one token. */
  lemma EntryOfToken(v: Row, cells: seq<int>, nt: nat, part: nat, val: seq<int>, off: int, x: nat, t: int)
    requires DistinctValues(val, nt) && RowHolds(v, cells, nt, part, val, off, nt) && x < nt
    ensures HasEntry(v, val[x], t) <==> Part(cells, nt, part, x) != 0 && t == Part(cells, nt, part, x) - off
  {
    if HasEntry(v, val[x], t) {
      var k: nat :| k < |v.froms| && v.froms[k] == val[x] && v.tos[k] == t;
      assert FromCell(v, k, cells, nt, part, val, off, nt);
    }
  }

  /** Every column of a row is the value of a token. */
  lemma ColumnIsToken(v: Row, cells: seq<int>, nt: nat, part: nat, val: seq<int>, off: int, c: int, t: int) returns (x: nat)
    requires DistinctValues(val, nt) && RowHolds(v, cells, nt, part, val, off, nt) && HasEntry(v, c, t)
    ensures x < nt && c == val[x] && Part(cells, nt, part, x) != 0 && t == Part(cells, nt, part, x) - off
  {
    var k: nat :| k < |v.froms| && v.froms[k] == c && v.tos[k] == t;
    assert FromCell(v, k, cells, nt, part, val, off, nt);
    x :| x < nt && Part(cells, nt, part, x) != 0 && v.froms[k] == val[x] && v.tos[k] == Part(cells, nt, part, x) - off;
  }

  // ----- Packed rows -----

  /** The driver's tables are the finished part of TABLE and CHECK. */
  ghost predicate Printed(T: Tables, p: Pack) {
    && Sized(T) && p.high < |p.chk| == |p.tab| && T.size == p.high
    && T.check == p.chk[..p.high + 1] && T.table == p.tab[..p.high + 1]
  }

  /** The driver's lookup through the base of a row finds exactly the entries of the row. */
  lemma LookupIsRow(T: Tables, rows: seq<Row>, base: seq<int>, p: Pack, x: nat, c: int, t: int)
    requires Exact(rows, base, p) && Printed(T, p) && x < |rows| && RowOk(rows[x]) && c >= 0
    ensures Lookup(T, base[x], c) == Some(t) <==> HasEntry(rows[x], c, t)
  {
    LookupIsHit(T, p, base[x], c);
    var v := rows[x];
    if Hit(p, base[x], c) {
      assert Reads(p, v, base[x], c);
      var k :| 0 <= k < |v.froms| && v.froms[k] == c && p.tab[base[x] + c] == v.tos[k];
      if HasEntry(v, c, t) {
        var m :| 0 <= m < |v.froms| && v.froms[m] == c && v.tos[m] == t;
        assert Distinct(v.froms);
        assert m == k;
      }
    } else {
      assert c !in v.froms;
    }
  }

  lemma LookupIsHit(T: Tables, p: Pack, j: int, c: int)
    requires Printed(T, p) && c >= 0
    ensures Lookup(T, j, c) == if Hit(p, j, c) then Some(p.tab[j + c]) else None
  {}
}
