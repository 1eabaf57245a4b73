/** In-place transitive closure of a bit matrix (warshall.c). */
module Warshall {
  import opened BitRows
  import opened Relation

  /** y can be reached from x through intermediate nodes below k. */
  ghost predicate Via(R: Rel, k: nat, x: nat, y: nat) {
    if k == 0 then Edge(R, x, y)
    else Via(R, k - 1, x, y) || (Via(R, k - 1, x, k - 1) && Via(R, k - 1, k - 1, y))
  }

  /** A node below k may itself be an intermediate. */
  lemma {:induction false} ViaTrans(R: Rel, k: nat, x: nat, z: nat, y: nat)
    requires z < k && Via(R, k, x, z) && Via(R, k, z, y)
    ensures Via(R, k, x, y)
    decreases k
  {
    var m := k - 1;
    if z < m {
      if Via(R, m, x, z) && Via(R, m, z, y) { ViaTrans(R, m, x, z, y); }
      if Via(R, m, x, z) && Via(R, m, z, m) { ViaTrans(R, m, x, z, m); }
      if Via(R, m, m, z) && Via(R, m, z, y) { ViaTrans(R, m, m, z, y); }
    }
  }

  lemma {:induction false} ViaIsReach(R: Rel, k: nat, x: nat, y: nat)
    requires Via(R, k, x, y)
    ensures Reach(R, x, y)
    decreases k
  {
    if k == 0 {
      ReachRefl(R, y);
      ReachStep(R, x, y, y);
    } else if Via(R, k - 1, x, y) {
      ViaIsReach(R, k - 1, x, y);
    } else {
      ViaIsReach(R, k - 1, x, k - 1);
      ViaIsReach(R, k - 1, k - 1, y);
      ReachTrans(R, x, k - 1, y);
    }
  }

  lemma {:induction false} EdgeIsVia(R: Rel, k: nat, x: nat, y: nat)
    requires Edge(R, x, y)
    ensures Via(R, k, x, y)
    decreases k
  {
    if k > 0 { EdgeIsVia(R, k - 1, x, y); }
  }

  /** With every node allowed as an intermediate, this is reachability in one or more steps. */
  lemma ReachIsVia(R: Rel, x: nat, y: nat)
    requires ValidRel(R) && x < |R|
    ensures Reach(R, x, y) <==> x == y || Via(R, |R|, x, y)
  {
    if Via(R, |R|, x, y) { ViaIsReach(R, |R|, x, y); }
    ReachRefl(R, x);
    if Reach(R, x, y) {
      var S := iset z: nat | z < |R| && (z == x || Via(R, |R|, x, z));
      forall a: nat, b: nat | a in S && Edge(R, a, b) ensures b in S {
        EdgeInRange(R, a, b);
        EdgeIsVia(R, |R|, a, b);
        if a != x { ViaTrans(R, |R|, x, a, b); }
      }
      ReachStaysIn(R, S, x, y);
    }
  }

  lemma EdgeInRange(R: Rel, a: nat, b: nat)
    requires ValidRel(R) && Edge(R, a, b)
    ensures a < |R| && b < |R|
  {
    var k :| 0 <= k < |R[a]| && R[a][k] == b;
  }

  /** The bit for column j of a row, by word and mask. */
  predicate Cell(m: array2<bv32>, i: nat, j: nat)
    requires i < m.Length0 && j / 32 < m.Length1
    reads m
  {
    BitOf(m[i, j / 32], j % 32)
  }

  /** An n by n bit matrix, a row taking as many words as it needs. */
  predicate Square(m: array2<bv32>, n: nat) { m.Length0 == n && m.Length1 == WordSize(n) }

  lemma WordOf(j: nat, n: nat)
    requires j < n
    ensures j / 32 < WordSize(n) && j % 32 < 32
  {}

  /** Rows below `j` have been taken through pivot k already, the others only through the pivots before it. */
  ghost predicate Holds(m: array2<bv32>, R: Rel, k: nat, j: nat)
    requires Square(m, |R|)
    reads m
  {
    forall x: nat, y: nat :: x < |R| && y < |R| ==>
      y / 32 < m.Length1 && (Cell(m, x, y) <==> Via(R, if x < j then k + 1 else k, x, y))
  }

  /** A row is or-ed into another, word by word. */
  method OrRow(m: array2<bv32>, i: nat, j: nat)
    requires i < m.Length0 && j < m.Length0
    modifies m
    ensures forall r: nat, w: nat :: r < m.Length0 && w < m.Length1 ==>
      m[r, w] == if r == j then Or(old(m[j, w]), old(m[i, w])) else old(m[r, w])
  {
    var w := 0;
    while w < m.Length1
      invariant w <= m.Length1
      invariant forall r: nat, v: nat :: r < m.Length0 && v < m.Length1 ==>
        m[r, v] == if r == j && v < w then Or(old(m[j, v]), old(m[i, v])) else old(m[r, v])
    {
      if i == j { OrSelf(m[j, w]); }
      m[j, w] := Or(m[j, w], m[i, w]);
      w := w + 1;
    }
  }

  lemma OrSelf(a: bv32)
    ensures Or(a, a) == a
  {}

  /** The pivot's own row does not change. */
  lemma PivotRow(R: Rel, k: nat, y: nat)
    ensures Via(R, k + 1, k, y) <==> Via(R, k, k, y)
  {}

  lemma ViaNext(R: Rel, k: nat, x: nat, y: nat)
    ensures Via(R, k + 1, x, y) <==> Via(R, k, x, y) || (Via(R, k, x, k) && Via(R, k, k, y))
  {}

  /** Row j, when its bit for the pivot is set. */
  method UpdateRow(m: array2<bv32>, ghost R: Rel, k: nat, j: nat)
    requires Square(m, |R|) && k < |R| && j < |R| && Holds(m, R, k, j)
    requires Via(R, k, j, k)
    modifies m
    ensures Holds(m, R, k, j + 1)
  {
    hide Or, Test, Mask, BitOf, Via;
    OrRow(m, k, j);
    forall x: nat, y: nat | x < |R| && y < |R|
      ensures y / 32 < m.Length1 && (Cell(m, x, y) <==> Via(R, if x < j + 1 then k + 1 else k, x, y))
    {
      WordOf(y, |R|);
      RowBit(m, old(m[x, y / 32]), old(m[k, y / 32]), x, y, j);
      assert old(Cell(m, x, y)) <==> Via(R, if x < j then k + 1 else k, x, y);
      assert old(Cell(m, k, y)) <==> Via(R, if k < j then k + 1 else k, k, y);
      PivotRow(R, k, y);
      ViaNext(R, k, x, y);
    }
  }

  lemma RowBit(m: array2<bv32>, a: bv32, p: bv32, x: nat, y: nat, j: nat)
    requires x < m.Length0 && y / 32 < m.Length1 && m[x, y / 32] == if x == j then Or(a, p) else a
    ensures Cell(m, x, y) <==> BitOf(a, y % 32) || (x == j && BitOf(p, y % 32))
  {
    OrBits(a, p, y % 32);
  }

  /** Row j, when it does not reach the pivot. */
  lemma KeepRow(m: array2<bv32>, R: Rel, k: nat, j: nat)
    requires Square(m, |R|) && k < |R| && j < |R| && Holds(m, R, k, j) && !Via(R, k, j, k)
    ensures Holds(m, R, k, j + 1)
  {
    forall x: nat, y: nat | x < |R| && y < |R|
      ensures y / 32 < m.Length1 && (Cell(m, x, y) <==> Via(R, if x < j + 1 then k + 1 else k, x, y))
    {
      ViaNext(R, k, x, y);
    }
  }

  /** Moving the mask to the next column; it runs out at the end of a word. */
  lemma NextColumn(i: nat)
    ensures ShiftUp(Mask(i % 32)) == 0 <==> (i + 1) % 32 == 0
    ensures (i + 1) % 32 == 0 ==> (i + 1) / 32 == i / 32 + 1
    ensures (i + 1) % 32 != 0 ==> ShiftUp(Mask(i % 32)) == Mask((i + 1) % 32) && (i + 1) / 32 == i / 32
  {
    hide Mask, ShiftUp;
    TopMask();
    MaskStep(i % 32);
    if i % 32 < 31 { MaskNonZero(i % 32 + 1); }
  }

  /** transitive_closure */
  method TransitiveClosure(m: array2<bv32>, ghost R: Rel)
    requires Square(m, |R|) && Holds(m, R, 0, 0)
    modifies m
    ensures Holds(m, R, |R|, 0)
  {
    hide *;
    var n := m.Length0;
    var cword, mask, i := 0, 1 as bv32, 0;
    SquareMeans(m, |R|);
    while i < n
      invariant i <= n && mask == Mask(i % 32) && cword == i / 32 && Holds(m, R, i, 0)
    {
      var j := 0;
      while j < n
        invariant j <= n && Holds(m, R, i, j)
      {
        ColumnBit(m, R, i, j, mask);
        if Test(m[j, cword], mask) {
          UpdateRow(m, R, i, j);
        } else {
          KeepRow(m, R, i, j);
        }
        j := j + 1;
      }
      NextPivot(m, R, i);
      NextColumn(i);
      mask := ShiftUp(mask);
      if mask == 0 {
        mask := 1;
        cword := cword + 1;
      }
      i := i + 1;
    }
  }

  lemma SquareMeans(m: array2<bv32>, n: nat)
    requires Square(m, n)
    ensures m.Length0 == n && m.Length1 == WordSize(n) && Mask(0) == 1
  {}

  lemma ColumnBit(m: array2<bv32>, R: Rel, i: nat, j: nat, mask: bv32)
    requires Square(m, |R|) && i < |R| && j < |R| && Holds(m, R, i, j) && mask == Mask(i % 32)
    ensures i / 32 < m.Length1 && (Test(m[j, i / 32], mask) <==> Via(R, i, j, i))
  {
    hide Test, Mask, Via;
    WordOf(i, |R|);
    assert Cell(m, j, i) <==> Via(R, i, j, i);
  }

  lemma NextPivot(m: array2<bv32>, R: Rel, i: nat)
    requires Square(m, |R|) && i < |R| && Holds(m, R, i, |R|)
    ensures Holds(m, R, i + 1, 0)
  {}

  /** The matrix is the reflexive transitive closure. */
  ghost predicate IsClosure(m: array2<bv32>, R: Rel)
    requires Square(m, |R|)
    reads m
  {
    forall x: nat, y: nat :: x < |R| && y < |R| ==> y / 32 < m.Length1 && (Cell(m, x, y) <==> Reach(R, x, y))
  }

  /** reflexive_transitive_closure: the cursor walks down the diagonal, one row and one bit at a time. */
  method ReflexiveTransitiveClosure(m: array2<bv32>, ghost R: Rel)
    requires ValidRel(R) && Square(m, |R|) && Holds(m, R, 0, 0)
    modifies m
    ensures IsClosure(m, R)
  {
    hide *;
    TransitiveClosure(m, R);
    SquareMeans(m, |R|);
    var n := m.Length0;
    var mask, row, word := 1 as bv32, 0, 0;
    DiagonalStart(m, R);
    while row < n
      invariant row <= n && mask == Mask(row % 32) && word == row / 32 && Diagonal(m, R, row)
    {
      WordOf(row, n);
      SetDiagonal(m, R, row, mask);
      NextColumn(row);
      mask := ShiftUp(mask);
      if mask == 0 {
        mask := 1;
        word := word + 1;
      }
      row := row + 1;
    }
    DiagonalEnd(m, R);
  }

  /** The diagonal is set in the rows before `row`. */
  ghost predicate Diagonal(m: array2<bv32>, R: Rel, row: nat)
    requires Square(m, |R|)
    reads m
  {
    forall x: nat, y: nat :: x < |R| && y < |R| ==>
      y / 32 < m.Length1 && (Cell(m, x, y) <==> Via(R, |R|, x, y) || (x == y && x < row))
  }

  lemma DiagonalStart(m: array2<bv32>, R: Rel)
    requires Square(m, |R|) && Holds(m, R, |R|, 0)
    ensures Diagonal(m, R, 0)
  {}

  lemma DiagonalEnd(m: array2<bv32>, R: Rel)
    requires ValidRel(R) && Square(m, |R|) && Diagonal(m, R, |R|)
    ensures IsClosure(m, R)
  {
    forall x: nat, y: nat | x < |R| && y < |R| ensures y / 32 < m.Length1 && (Cell(m, x, y) <==> Reach(R, x, y)) {
      ReachIsVia(R, x, y);
    }
  }

  /** *rp |= mask */
  method SetDiagonal(m: array2<bv32>, ghost R: Rel, row: nat, mask: bv32)
    requires Square(m, |R|) && row < |R| && mask == Mask(row % 32) && row / 32 < m.Length1 && Diagonal(m, R, row)
    modifies m
    ensures Diagonal(m, R, row + 1)
  {
    hide Test, Or, Mask, Via;
    m[row, row / 32] := Or(m[row, row / 32], mask);
    forall x: nat, y: nat | x < |R| && y < |R|
      ensures y / 32 < m.Length1 && (Cell(m, x, y) <==> Via(R, |R|, x, y) || (x == y && x < row + 1))
    {
      assert old(Cell(m, x, y)) <==> Via(R, |R|, x, y) || (x == y && x < row);
      if x == row && y / 32 == row / 32 {
        OrBits(old(m[row, row / 32]), mask, y % 32);
        MaskBits(row % 32, y % 32);
      }
    }
  }
}
