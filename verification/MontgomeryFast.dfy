/** Montgomery reduction, the column form (bn_fast_mp_montgomery_reduce.c), and the choice between the two. */
module MontgomeryFast {
  import opened Arith
  import opened Congruences
  import opened Digits
  import opened Words
  import opened MpInts
  import opened MpShift
  import opened Montgomery

  /** Adding one row of products to the columns, as far as digit `iy`. */
  ghost predicate RowAdded(w: seq<int>, w': seq<int>, n: seq<int>, mu: int, ix: nat, iy: nat) {
    && |w'| == |w| && ix + iy <= |w| && iy <= |n|
    && (forall j: nat :: j < ix || ix + iy <= j < |w| ==> w'[j] == w[j])
    && (forall i: nat :: i < iy ==> w'[ix + i] == w[ix + i] + mu * n[i])
  }

  lemma {:induction false} RowLow(w: seq<int>, w': seq<int>, n: seq<int>, mu: int, ix: nat, iy: nat)
    requires RowAdded(w, w', n, mu, ix, iy)
    ensures Low(w', ix + iy) - Low(w, ix + iy) == mu * Low(n, iy) * BP(ix)
    decreases iy
  {
    if iy == 0 {
      LowSame(w, w', 0, ix);
      LowNone(n);
      MulAssoc(mu, 0, BP(ix));
    } else {
      var j: nat := ix + (iy - 1);
      var v := w'[j := w[j]];
      RowLow(w, v, n, mu, ix, iy - 1);
      LowSame(v, w', 0, j);
      LowTop(w, j);
      LowTop(w', j);
      hide Low, BP;
      MultipleStep(n, iy - 1, ix, mu);
      MulDist(w[j], mu * n[iy - 1], BP(j));
    }
  }

  lemma LowTop(s: seq<int>, j: nat)
    requires j < |s|
    ensures Low(s, j + 1) == Low(s, j) + s[j] * BP(j)
  {}

  lemma RowValue(w: seq<int>, w': seq<int>, n: seq<int>, mu: int, ix: nat, iy: nat, L: nat)
    requires RowAdded(w, w', n, mu, ix, iy) && ix + iy <= L <= |w|
    ensures High(w', ix, L) == High(w, ix, L) + mu * Low(n, iy) * BP(ix)
    ensures Low(w', ix + iy) - Low(w, ix + iy) == mu * Low(n, iy) * BP(ix)
  {
    hide Low, BP;
    RowLow(w, w', n, mu, ix, iy);
    LowNone(w);
    LowNone(w');
    LowSame(w, w', 0, ix);
    LowSame(w, w', ix + iy, L);
  }

  /** The columns below `ix` are done; the ones from `ix` on hold X plus a multiple of n. */
  ghost predicate Columnar(w: seq<int>, n: int, k: nat, ix: nat, X: int, S: int) {
    && 2 * k + 1 < |w| && ix <= k && 0 <= S < BP(ix)
    && High(w, ix, 2 * k + 1) == X + S * n
    && 0 <= w[ix] < ColumnMax(ix) + COLUMNS * B
    && (forall j: nat :: ix < j <= 2 * k ==> 0 <= w[j] <= ColumnMax(ix))
  }

  /** One round: add the row that clears column ix, then hand its carry to the next column. */
  lemma ColumnRound(w: seq<int>, w': seq<int>, w'': seq<int>, n: seq<int>, N: int, k: nat, ix: nat, X: int, S: int, mu: int)
    requires Columnar(w, N, k, ix, X, S) && InRange(X, N, k) && ix < k < COLUMNS && IsDigit(mu)
    requires |n| >= k && DigitsOk(n) && N == Low(n, k) && RowAdded(w, w', n, mu, ix, k)
    requires (mu * n[0] + w[ix]) % B == 0 && w'' == w'[ix + 1 := w'[ix + 1] + w'[ix] / B]
    requires 0 <= w'[ix] < LIMIT
    ensures Columnar(w'', N, k, ix + 1, X, S + mu * BP(ix))
  {
    hide *;
    ColumnarMeans(w, N, k, ix, X, S);
    RowValue(w, w', n, mu, ix, k, 2 * k + 1);
    RoomLeft(N, k, ix, X, S, mu);
    RowFirst(w, w', n, mu, ix, k);
    CarryMoves(w', ix, 2 * k + 1);
    ColumnBounds(w, w', w'', n, k, ix, mu);
    ColumnarIntro(w'', N, k, ix + 1, X, S + mu * BP(ix));
  }

  lemma RowFirst(w: seq<int>, w': seq<int>, n: seq<int>, mu: int, ix: nat, k: nat)
    requires RowAdded(w, w', n, mu, ix, k) && k > 0
    ensures w'[ix] == w[ix] + mu * n[0] && |w'| == |w|
  {
    assert w'[ix + 0] == w[ix + 0] + mu * n[0];
  }

  /** A column divisible by the radix is worth its carry one column up. */
  lemma CarryMoves(w: seq<int>, j: nat, L: nat)
    requires j + 1 < L <= |w| && w[j] % B == 0
    ensures High(w[j + 1 := w[j + 1] + w[j] / B], j + 1, L) == High(w, j, L)
  {
    var c := w[j] / B;
    DivModDef(w[j], B);
    LowUpdate(w, j + 1, w[j + 1] + c, j + 1);
    LowUpdate(w, j + 1, w[j + 1] + c, L);
    BPStep(j);
    MulAssoc(c, B, BP(j));
  }

  lemma ColumnarMeans(w: seq<int>, n: int, k: nat, ix: nat, X: int, S: int)
    requires Columnar(w, n, k, ix, X, S)
    ensures 2 * k + 1 < |w| && ix <= k && 0 <= S < BP(ix) && High(w, ix, 2 * k + 1) == X + S * n
    ensures 0 <= w[ix] < ColumnMax(ix) + COLUMNS * B
    ensures forall j: nat :: ix < j <= 2 * k ==> 0 <= w[j] <= ColumnMax(ix)
  {}

  lemma ColumnarIntro(w: seq<int>, n: int, k: nat, ix: nat, X: int, S: int)
    requires 2 * k + 1 < |w| && ix <= k && 0 <= S < BP(ix) && High(w, ix, 2 * k + 1) == X + S * n
    requires 0 <= w[ix] < ColumnMax(ix) + COLUMNS * B
    requires forall j: nat :: ix < j <= 2 * k ==> 0 <= w[j] <= ColumnMax(ix)
    ensures Columnar(w, n, k, ix, X, S)
  {}

  lemma ColumnMaxStep(i: nat)
    ensures ColumnMax(i + 1) == ColumnMax(i) + (B - 1) * (B - 1) && ColumnMax(i) >= 0
  {
    MulDist(i, 1, (B - 1) * (B - 1));
    MulNonNegative(i, (B - 1) * (B - 1));
  }

  lemma ColumnBounds(w: seq<int>, w': seq<int>, w'': seq<int>, n: seq<int>, k: nat, ix: nat, mu: int)
    requires 2 * k + 1 < |w| && ix < k < COLUMNS && IsDigit(mu) && |n| >= k && DigitsOk(n)
    requires RowAdded(w, w', n, mu, ix, k) && w'' == w'[ix + 1 := w'[ix + 1] + w'[ix] / B]
    requires 0 <= w'[ix] < LIMIT
    requires forall j: nat :: ix < j <= 2 * k ==> 0 <= w[j] <= ColumnMax(ix)
    ensures 0 <= w''[ix + 1] < ColumnMax(ix + 1) + COLUMNS * B
    ensures forall j: nat :: ix + 1 < j <= 2 * k ==> 0 <= w''[j] <= ColumnMax(ix + 1)
  {
    RowSameSize(w, w', n, mu, ix, k);
    WordCarry(w'[ix]);
    hide *;
    forall j: nat | ix < j <= 2 * k ensures 0 <= w'[j] <= ColumnMax(ix + 1) {
      GrownColumn(w, w', n, k, ix, mu, j);
    }
  }

  lemma RowSameSize(w: seq<int>, w': seq<int>, n: seq<int>, mu: int, ix: nat, iy: nat)
    requires RowAdded(w, w', n, mu, ix, iy)
    ensures |w'| == |w|
  {}

  /** One column after a row has been added. */
  lemma GrownColumn(w: seq<int>, w': seq<int>, n: seq<int>, k: nat, ix: nat, mu: int, j: nat)
    requires 2 * k + 1 < |w| && ix < j <= 2 * k && ix < k && IsDigit(mu) && |n| >= k && DigitsOk(n)
    requires RowAdded(w, w', n, mu, ix, k) && 0 <= w[j] <= ColumnMax(ix)
    ensures 0 <= w'[j] <= ColumnMax(ix + 1)
  {
    hide ColumnMax;
    ColumnMaxStep(ix);
    if j < ix + k {
      var d := n[j - ix];
      assert w'[ix + (j - ix)] == w[ix + (j - ix)] + mu * d;
      ProductBound(mu, d);
    } else {
      ProductBound(B - 1, B - 1);
    }
  }

  /** Carries are added from column k on; digit i of the result is what is left in column k + i. */
  ghost predicate Carried(w0: seq<int>, w: seq<int>, k: nat, top: nat) {
    && |w| == |w0| && k <= top < |w| && w[k] == w0[k]
    && (forall j: nat :: k < j <= top ==> w[j] == w0[j] + w[j - 1] / B)
    && (forall j: nat :: j < k || top < j < |w| ==> w[j] == w0[j])
  }

  lemma {:induction false} CarriedValue(w0: seq<int>, w: seq<int>, d: seq<int>, k: nat, top: nat, m: nat)
    requires Carried(w0, w, k, top) && k + m <= top && m < |d|
    requires forall i: nat :: i <= m ==> d[i] == w[k + i] % B
    ensures High(w0, k, k + m + 1) == BP(k) * Low(d, m + 1) + w[k + m] / B * BP(k + m + 1)
    decreases m
  {
    var c := w[k + m] / B;
    DivModDef(w[k + m], B);
    BPStep(k + m);
    MulAssoc(c, B, BP(k + m));
    MulDist(c * B, d[m], BP(k + m));
    assert d[m] == w[k + m] % B;
    assert w[k + m] * BP(k + m) == c * BP(k + m + 1) + d[m] * BP(k + m);
    BPAdd(k, m);
    ShiftStep(BP(k), BP(m), d[m], Low(d, m));
    if m > 0 {
      CarriedValue(w0, w, d, k, top, m - 1);
      var j := k + m;
      assert w[j] == w0[j] + w[j - 1] / B;
      MulDist(w0[j], w[j - 1] / B, BP(j));
    }
  }

  /** The carries die out within the 2k + 1 columns, so the digits copied out are x / BP(k). */
  lemma CopiedOut(w0: seq<int>, w: seq<int>, d: seq<int>, n: int, k: nat, X: int, S: int)
    requires Columnar(w0, n, k, k, X, S) && InRange(X, n, k) && Carried(w0, w, k, 2 * k)
    requires |w| > 2 * k && |d| > k && (forall i: nat :: i <= k ==> d[i] == w[k + i] % B) && 0 <= w[2 * k]
    ensures Shifted(Low(d, k + 1), n, k, X, S)
  {
    hide *;
    ColumnarMeans(w0, n, k, k, X, S);
    var c := CarriedTop(w0, w, d, k);
    TotalBound(n, k, X, S);
    NonNegativeLow(d, w, k);
    BPPositive(2 * k + 1);
    NoCarryLeft(c, BP(2 * k + 1), BP(k) * Low(d, k + 1), X + S * n);
    ShiftedIntro(Low(d, k + 1), n, k, X, S);
  }

  lemma CarriedTop(w0: seq<int>, w: seq<int>, d: seq<int>, k: nat) returns (c: int)
    requires Carried(w0, w, k, 2 * k) && |d| > k && (forall i: nat :: i <= k ==> d[i] == w[k + i] % B) && 0 <= w[2 * k]
    ensures |w| > 2 * k && c >= 0 && High(w0, k, 2 * k + 1) == BP(k) * Low(d, k + 1) + c * BP(2 * k + 1)
  {
    CarriedValue(w0, w, d, k, 2 * k, k);
    c := w[2 * k] / B;
    DivModDef(w[2 * k], B);
    MulCancel(-1, c, B);
    assert k + k == 2 * k;
  }

  lemma ShiftedIntro(r: int, n: int, k: nat, X: int, S: int)
    requires BP(k) * r == X + S * n && X + S * n < 2 * (n * BP(k))
    ensures Shifted(r, n, k, X, S)
  {}

  lemma TotalBound(n: int, k: nat, X: int, S: int)
    requires InRange(X, n, k) && 0 <= S < BP(k)
    ensures X + S * n < 2 * (n * BP(k)) && X + S * n < BP(2 * k + 1)
  {
    MulMonoStrict(S, BP(k), n);
    BPAdd(k, k);
    BPStep(2 * k);
    MulMonoStrict(n, BP(k), BP(k));
    MulMono(2, B, BP(2 * k));
  }

  lemma NonNegativeLow(d: seq<int>, w: seq<int>, k: nat)
    requires |d| > k && |w| > 2 * k && forall i: nat :: i <= k ==> d[i] == w[k + i] % B
    ensures BP(k) * Low(d, k + 1) >= 0
  {
    var e := d[..k + 1];
    forall i | 0 <= i < |e| ensures IsDigit(e[i]) {
      assert d[i] == w[k + i] % B;
      DivModDef(w[k + i], B);
    }
    LowSame(d, e, 0, k + 1);
    LowBound(e, k + 1);
    BPPositive(k);
    MulNonNegative(BP(k), Low(d, k + 1));
  }

  lemma NoCarryLeft(c: int, p: int, l: int, total: int)
    requires c >= 0 && p > 0 && l >= 0 && total == l + c * p && total < p
    ensures c == 0 && total == l
  {
    if c > 0 { MulMono(1, c, p); }
  }

  /** The input, column by column, and zeros; the last word of the array in use stays as it was found. */
  method LoadColumns(W: array<Word>, x: MpInt, k: nat)
    requires x.Loose() && x.used <= 2 * k && 2 * k + 1 < W.Length
    modifies W
    ensures Low(W[..], 2 * k + 1) == x.Mag()
    ensures forall j: nat :: j <= 2 * k ==> 0 <= W[..][j] < B
  {
    hide Low, Val;
    var ix := 0;
    while ix < x.used
      invariant ix <= x.used
      invariant forall j: nat :: j < ix ==> W[j] == x.dp[j]
    {
      DigitIsWord(x.dp[ix]);
      W[ix] := x.dp[ix];
      ix := ix + 1;
    }
    while ix < k * 2 + 1
      invariant x.used <= ix <= 2 * k + 1
      invariant forall j: nat :: j < x.used ==> W[j] == x.dp[j]
      invariant forall j: nat :: x.used <= j < ix ==> W[j] == 0
    {
      W[ix] := 0;
      ix := ix + 1;
    }
    UsedValue(x, 2 * k + 1);
    LowSame(x.dp, W[..], 0, 2 * k + 1);
    LowNone(x.dp);
    LowNone(W[..]);
  }

  lemma DigitIsWord(d: int)
    requires IsDigit(d)
    ensures 0 <= d < LIMIT
  {
    MulMono(1, COLUMNS, B * B);
    MulMono(1, B, B);
  }

  /** The inner loop: no column overflows. */
  method AddRow(W: array<Word>, n: MpInt, mu: nat, ix: nat, k: nat)
    requires n.Ok() && k == n.used && 0 < k && IsDigit(mu) && ix + k < W.Length && ix < k < COLUMNS
    requires W[ix] < ColumnMax(ix) + COLUMNS * B
    requires forall j: nat :: ix < j < ix + k ==> W[j] <= ColumnMax(ix)
    modifies W
    ensures RowAdded(old(W[..]), W[..], n.dp, mu, ix, k)
  {
    hide ColumnMax;
    ghost var w := W[..];
    ColumnFits(ix + 1);
    ColumnMaxStep(ix);
    var iy := 0;
    while iy < k
      invariant iy <= k
      invariant forall j: nat :: j < ix || ix + iy <= j < W.Length ==> W[j] == w[j]
      invariant forall i: nat :: i < iy ==> W[ix + i] == w[ix + i] + mu * n.dp[i]
    {
      ProductBound(mu, n.dp[iy]);
      W[ix + iy] := WordAdd(W[ix + iy], mu * n.dp[iy]);
      iy := iy + 1;
    }
  }

  lemma ColumnarStart(w: seq<int>, n: int, k: nat, X: int)
    requires 2 * k + 1 < |w| && Low(w, 2 * k + 1) == X
    requires forall j: nat :: j <= 2 * k ==> 0 <= w[j] < B
    ensures Columnar(w, n, k, 0, X, 0)
  {
    MulMono(1, COLUMNS, B);
  }

  /** The body of the outer loop; the multiplier needs only the low digit of column ix. */
  method Round(W: array<Word>, n: MpInt, rho: nat, ix: nat, k: nat, ghost X: int, ghost S: int) returns (ghost S': int)
    requires n.Ok() && k == n.used && ix < k < COLUMNS && IsRho(rho, n.dp[0])
    requires InRange(X, n.Mag(), k) && 2 * k + 1 < W.Length && Columnar(W[..], n.Mag(), k, ix, X, S)
    modifies W
    ensures Columnar(W[..], n.Mag(), k, ix + 1, X, S')
  {
    UsedValue(n, k);
    ghost var w := W[..];
    assert DigitsOk(n.dp) && k <= |n.dp|;
    hide *;
    ColumnarMeans(w, n.Mag(), k, ix, X, S);
    assert W[ix] == w[ix] && forall j: nat :: ix < j < ix + k ==> W[j] == w[j];
    LowDigit(W[ix]);
    var mu := Multiplier(W[ix] % B, rho, n.dp[0]);
    AddRow(W, n, mu, ix, k);
    ghost var w' := W[..];
    WholeColumn(mu * n.dp[0], w[ix]);
    ColumnsFit(w, w', n.dp, mu, ix, k);
    WordCarry(W[ix]);
    W[ix + 1] := WordAdd(W[ix + 1], W[ix] / B);
    assert W[..] == w'[ix + 1 := w'[ix + 1] + w'[ix] / B];
    ColumnRound(w, w', W[..], n.dp, n.Mag(), k, ix, X, S, mu);
    S' := S + mu * BP(ix);
  }

  lemma LowDigit(w: Word)
    ensures 0 <= w % B < B
  {}

  lemma WholeColumn(m: int, w: int)
    requires (m + w % B) % B == 0
    ensures (m + w) % B == 0
  {
    DivModDef(w, B);
    var q := (m + w % B) / B;
    DivModDef(m + w % B, B);
    MulDist(q, w / B, B);
    DivModUnique(m + w, B, q + w / B, 0);
  }

  lemma ColumnsFit(w: seq<int>, w': seq<int>, n: seq<int>, mu: int, ix: nat, k: nat)
    requires RowAdded(w, w', n, mu, ix, k) && ix < k < COLUMNS && |n| >= k && DigitsOk(n) && IsDigit(mu) && 2 * k + 1 < |w|
    requires forall j: nat :: ix < j <= 2 * k ==> 0 <= w[j] <= ColumnMax(ix)
    ensures w'[ix + 1] + COLUMNS * B <= LIMIT
  {
    hide ColumnMax;
    ColumnMaxStep(ix);
    ColumnFits(ix + 1);
    if 1 < k {
      ProductBound(mu, n[1]);
      assert w'[ix + 1] == w[ix + 1] + mu * n[1];
    }
  }

  /** The rest of the carries; the last one goes to a word that was never initialised and is not read. */
  method CarryUp(W: array<Word>, k: nat)
    requires 2 * k + 1 < W.Length && k < COLUMNS
    requires forall j: nat :: k < j <= 2 * k ==> W[j] <= ColumnMax(k)
    modifies W
    ensures Carried(old(W[..]), W[..][2 * k + 1 := old(W[..])[2 * k + 1]], k, 2 * k)
  {
    hide ColumnMax;
    ghost var w := W[..];
    ColumnFits(k);
    var ix := k + 1;
    while ix <= k * 2 + 1
      invariant k < ix <= 2 * k + 2
      invariant forall j: nat :: j <= k || ix <= j < W.Length ==> W[j] == w[j]
      invariant forall j: nat :: k < j < ix && j <= 2 * k ==> W[j] == w[j] + W[j - 1] / B
      invariant forall j: nat :: 2 * k + 1 < j < W.Length ==> W[j] == w[j]
    {
      WordCarry(W[ix - 1]);
      W[ix] := WordAdd(W[ix], W[ix - 1] / B);
      ix := ix + 1;
    }
  }

  /** Copy out x / BP(k), and clear what is left of a longer input. */
  method CopyOut(x: MpInt, W: array<Word>, k: nat, olduse: nat)
    requires x.Loose() && x.used == olduse && k < |x.dp| && 2 * k + 1 < W.Length
    modifies x`dp, x`used
    ensures x.Loose() && |x.dp| == old(|x.dp|) && x.used == k + 1
    ensures x.Mag() == Low(x.dp, k + 1) && forall i: nat :: i <= k ==> x.dp[i] == W[k + i] % B
  {
    hide Low, Val;
    ghost var C := x.dp;
    var ix := 0;
    while ix < k + 1
      invariant ix <= k + 1 && |x.dp| == |C| && DigitsOk(x.dp)
      invariant forall i: nat :: i < ix ==> x.dp[i] == W[k + i] % B
      invariant forall j: nat :: ix <= j < |C| ==> x.dp[j] == C[j]
      modifies x`dp
    {
      LowDigit(W[k + ix]);
      x.dp := x.dp[ix := W[k + ix] % B];
      ix := ix + 1;
    }
    ClearAbove(x, k + 1, olduse);
    x.used := k + 1;
  }

  /** fast_mp_montgomery_reduce */
  method ReduceColumns(x: MpInt, n: MpInt, rho: nat)
    requires x.Valid() && n.Ok() && x != n && 0 < n.used < COLUMNS && 2 * n.used + 1 < WARRAY
    requires IsRho(rho, n.dp[0]) && InRange(x.Mag(), n.Mag(), n.used)
    modifies x
    ensures x.Valid() && |x.dp| >= old(|x.dp|) && Reduced(x.Mag(), old(x.Mag()), n.Mag(), n.used)
    ensures x.sign == old(x.sign) || x.used == 0
  {
    hide Low, BP, Val, Columnar, Carried, Cong, Reduced, InRange, IsRho, Shifted, ColumnMax;
    ghost var X, N := x.Mag(), n.Mag();
    var k := n.used;
    SizeFits(x, N, k);
    InRangeMeans(X, N, k);
    var olduse := x.used;
    Grow(x, k + 1);
    var W := new Word[WARRAY];
    LoadColumns(W, x, k);
    ColumnarStart(W[..], N, k, X);
    ghost var S := 0;
    var ix := 0;
    while ix < k
      invariant ix <= k && Columnar(W[..], N, k, ix, X, S)
      modifies W
    {
      S := Round(W, n, rho, ix, k, X, S);
      ix := ix + 1;
    }
    Finish(x, n, W, k, olduse, X, S);
  }

  /** From the cleared columns to the reduced residue. */
  method Finish(x: MpInt, n: MpInt, W: array<Word>, k: nat, olduse: nat, ghost X: int, ghost S: int)
    requires x.Loose() && x.used == olduse && k < |x.dp| && n.Ok() && x != n && 0 < k < COLUMNS && 2 * k + 1 < W.Length
    requires InRange(X, n.Mag(), k) && Columnar(W[..], n.Mag(), k, k, X, S)
    modifies x, W
    ensures x.Valid() && |x.dp| >= old(|x.dp|) && Reduced(x.Mag(), X, n.Mag(), k)
    ensures x.sign == old(x.sign) || x.used == 0
  {
    hide Low, BP, Val, Columnar, Carried, Cong, Reduced, InRange, Shifted, ColumnMax;
    ghost var w0 := W[..];
    ColumnarMeans(w0, n.Mag(), k, k, X, S);
    assert forall j: nat :: k < j <= 2 * k ==> W[j] == w0[j];
    CarryUp(W, k);
    ghost var w := W[..][2 * k + 1 := w0[2 * k + 1]];
    CopyOut(x, W, k, olduse);
    assert forall j: nat :: k <= j <= 2 * k ==> W[j] == w[j];
    CopiedOut(w0, w, x.dp, n.Mag(), k, X, S);
    InRangeMeans(X, n.Mag(), k);
    Clamp(x);
    FinalSubtract(x, n, k, X, S);
  }

  /** mp_montgomery_reduce */
  method Reduce(x: MpInt, n: MpInt, rho: nat)
    requires x.Valid() && n.Ok() && x != n && n.used > 0 && IsRho(rho, n.dp[0])
    requires InRange(x.Mag(), n.Mag(), n.used)
    modifies x
    ensures x.Valid() && |x.dp| >= old(|x.dp|) && Reduced(x.Mag(), old(x.Mag()), n.Mag(), n.used)
    ensures x.sign == old(x.sign) || x.used == 0
  {
    var digs := n.used * 2 + 1;
    if digs < WARRAY && n.used < COLUMNS {
      ReduceColumns(x, n, rho);
    } else {
      ReduceDigits(x, n, rho);
    }
  }
}
