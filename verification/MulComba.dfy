/** Column-wise multiplication and squaring (bn_fast_s_mp_mul_digs.c, bn_fast_s_mp_sqr.c). */
module MulComba {
  import opened Arith
  import opened Digits
  import opened Words
  import opened MpInts
  import opened MulColumns

  function Min(x: int, y: int): int { if x < y then x else y }

  /** COLUMNS products and a carry still fit. */
  lemma ProductsFit(i: nat, carry: int)
    requires i <= COLUMNS && 0 <= carry < COLUMNS * B
    ensures 0 <= carry + i * ((B - 1) * (B - 1)) < LIMIT
  {
    var p, c: int := (B - 1) * (B - 1), COLUMNS;
    assert p == B * B - 2 * B + 1;
    MulMono(i, c, p);
    MulNonNegative(i, p);
    assert c * p == c * (B * B) - 2 * (c * B) + c by {
      assert c * (B * B - 2 * B + 1) == c * (B * B) - c * (2 * B) + c;
    }
    MulMono(1, B, c);
  }

  lemma OneMoreProduct(x: int, y: int, w: int, carry: int, i: nat)
    requires IsDigit(x) && IsDigit(y) && carry <= w <= carry + i * ((B - 1) * (B - 1)) && i < COLUMNS && 0 <= carry < COLUMNS * B
    ensures 0 <= x * y && carry <= w + x * y <= carry + (i + 1) * ((B - 1) * (B - 1)) && w + x * y < LIMIT
  {
    var p, q := x * y, (B - 1) * (B - 1);
    assert 0 <= p <= q by { ProductBound(x, y); }
    assert (i + 1) * q == i * q + q by { MulDist(i, 1, q); }
    ProductsFit(i + 1, carry);
  }

  /** One column: the inner loop, started on the carry from the column below. */
  method ColumnSum(a: MpInt, b: MpInt, ix: nat, carry: Word) returns (w: Word)
    requires a.Loose() && b.Loose() && ix < a.used + b.used
    requires carry < COLUMNS * B && (a.used <= COLUMNS || b.used <= COLUMNS)
    ensures w == carry + Column(a.dp, b.dp, a.used, ix)
  {
    hide Column;
    var ty: int := Min(b.used - 1, ix);
    var tx := ix - ty;
    var iy := Min(a.used - tx, ty + 1);
    ColumnStart(a.dp, b.dp, tx, b.used, ix);
    w := carry;
    var iz := 0;
    assert 0 * ((B - 1) * (B - 1)) == 0;
    while iz < iy
      invariant 0 <= iz <= iy && iz <= COLUMNS
      invariant w == carry + Column(a.dp, b.dp, tx + iz, ix)
      invariant carry <= w <= carry + iz * ((B - 1) * (B - 1))
    {
      OneMoreProduct(a.dp[tx + iz], b.dp[ty - iz], w, carry, iz);
      ColumnNext(a.dp, b.dp, tx + iz, ix);
      w := WordAdd(w, a.dp[tx + iz] * b.dp[ty - iz]);
      iz := iz + 1;
    }
    ColumnEnd(a.dp, b.dp, tx + iz, a.used, ix);
  }

  lemma ColumnNext(a: seq<int>, b: seq<int>, m: nat, n: nat)
    requires m <= n
    ensures Column(a, b, m + 1, n) == Column(a, b, m, n) + At(a, m) * At(b, n - m)
  {}

  /** The digits so far and the carry are the columns so far. */
  ghost predicate Settled(W: seq<int>, a: seq<int>, b: seq<int>, m: nat, ix: nat, carry: int) {
    ix <= |W| && (forall j: nat :: j < ix ==> IsDigit(W[j])) && Low(W, ix) + carry * BP(ix) == Columns(a, b, m, ix)
  }

  lemma SettleOne(W: seq<int>, a: seq<int>, b: seq<int>, m: nat, ix: nat, carry: int, w: Word)
    requires Settled(W, a, b, m, ix, carry) && ix < |W| && w == carry + Column(a, b, m, ix)
    ensures Settled(W[ix := w % B], a, b, m, ix + 1, w / B) && 0 <= w / B < COLUMNS * B && w / B <= w
  {
    WordCarry(w);
    LowUpdate(W, ix, w % B, ix);
    BPStep(ix);
    MulAssoc(w / B, B, BP(ix));
    MulDist(w / B * B, w % B, BP(ix));
    MulDist(carry, Column(a, b, m, ix), BP(ix));
  }

  /** The last carry is zero, so the digits are the product. */
  lemma AllSettled(W: seq<int>, a: MpInt, b: MpInt, carry: int)
    requires a.Loose() && b.Loose() && carry >= 0 && Settled(W, a.dp, b.dp, a.used, a.used + b.used, carry)
    ensures Low(W, a.used + b.used) == a.Mag() * b.Mag()
  {
    var pa := a.used + b.used;
    ColumnsAreProduct(a.dp, b.dp, a.used, b.used, pa);
    UsedValue(a, a.used);
    UsedValue(b, b.used);
    LowBound(a.dp, a.used);
    LowBound(b.dp, b.used);
    ProductBelow(a.Mag(), b.Mag(), BP(a.used), BP(b.used));
    BPAdd(a.used, b.used);
    var d := W[..pa];
    LowSame(W, d, 0, pa);
    LowBound(d, pa);
    BPPositive(pa);
    if carry > 0 { MulMono(1, carry, BP(pa)); }
  }

  lemma ProductBelow(x: int, y: int, p: int, q: int)
    requires 0 <= x < p && 0 <= y < q
    ensures x * y < p * q
  {
    MulMono(x, p - 1, y);
    MulMono(y, q - 1, p);
    MulDist(p, 1, y);
  }

  /** The product's digits, into the column array. */
  method ProductDigits(a: MpInt, b: MpInt, W: array<int>)
    requires a.Loose() && b.Loose() && a.used + b.used <= W.Length && (a.used <= COLUMNS || b.used <= COLUMNS)
    modifies W
    ensures forall j: nat :: j < a.used + b.used ==> IsDigit(W[j])
    ensures Low(W[..], a.used + b.used) == a.Mag() * b.Mag()
    ensures forall j: nat :: a.used + b.used <= j < W.Length ==> W[j] == old(W[j])
  {
    var pa := a.used + b.used;
    assert Settled(W[..], a.dp, b.dp, a.used, 0, 0);
    hide *;
    var w: Word := 0;
    var ix := 0;
    while ix < pa
      invariant ix <= pa && w < COLUMNS * B
      invariant Settled(W[..], a.dp, b.dp, a.used, ix, w)
      invariant forall j: nat :: pa <= j < W.Length ==> W[j] == old(W[j])
    {
      ghost var s, carry := W[..], w;
      w := ColumnSum(a, b, ix, w);
      SettleOne(s, a.dp, b.dp, a.used, ix, carry, w);
      W[ix] := w % B;
      assert W[..] == s[ix := w % B];
      w := w / B;
      ix := ix + 1;
    }
    SettledDigits(W[..], a.dp, b.dp, a.used, pa, w);
    AllSettled(W[..], a, b, w);
  }

  lemma SettledDigits(W: seq<int>, a: seq<int>, b: seq<int>, m: nat, ix: nat, carry: int)
    requires Settled(W, a, b, m, ix, carry)
    ensures ix <= |W| && forall j: nat :: j < ix ==> IsDigit(W[j])
  {}

  /** fast_s_mp_mul_digs with all digits wanted.  The copy takes one word more than was computed:
      `stale` is what that word held, and it lands just above the digits of the result. */
  method MulDigits(a: MpInt, b: MpInt, c: MpInt, stale: int)
    requires a.Ok() && b.Ok() && c.Loose()
    requires a.used + b.used + 1 < WARRAY && (a.used <= COLUMNS || b.used <= COLUMNS)
    modifies c
    ensures |c.dp| >= old(|c.dp|) && c.used <= |c.dp|
    ensures Low(c.dp, c.used) == old(a.Mag()) * old(b.Mag()) && (c.used > 0 ==> c.dp[c.used - 1] != 0)
    ensures c.Ok() <==> stale == 0
    ensures c.Ok() ==> c.Mag() == old(a.Mag()) * old(b.Mag())
    ensures c.sign == (if c.used == 0 then ZPos else old(c.sign))
  {
    hide Low, BP, Val;
    Grow(c, a.used + b.used + 1);
    var W := new int[WARRAY];
    var pa := a.used + b.used;
    W[pa] := stale;
    ProductDigits(a, b, W);
    var olduse := c.used;
    c.used := pa;
    CopyWords(c, W, pa + 1, olduse);
    LowNone(W[..]);
    LowNone(c.dp);
    LowSame(W[..], c.dp, 0, pa);
    assert c.dp[pa] == stale;
    ClampBelow(c, stale);
  }

  /** mp_clamp, with one word above the digits in use. */
  method ClampBelow(c: MpInt, stale: int)
    requires c.used < |c.dp| && c.dp[c.used] == stale && (forall k: nat :: k < c.used ==> IsDigit(c.dp[k]))
    requires forall k: nat :: c.used < k < |c.dp| ==> c.dp[k] == 0
    modifies c`used, c`sign
    ensures c.used <= |c.dp| && Low(c.dp, c.used) == old(Low(c.dp, c.used)) && (c.used > 0 ==> c.dp[c.used - 1] != 0)
    ensures c.Ok() <==> stale == 0
    ensures c.Ok() ==> c.Mag() == Low(c.dp, c.used)
    ensures c.sign == (if c.used == 0 then ZPos else old(c.sign))
  {
    hide Low, BP, Val;
    var pa := c.used;
    Clamp(c);
    assert forall k: nat :: c.used <= k < pa ==> At(c.dp, k) == 0;
    LowZeros(c.dp, c.used, pa);
    if stale == 0 { UsedValue(c, c.used); }
  }

  /** The digits are copied out, and cleared above. */
  method CopyWords(c: MpInt, W: array<int>, count: nat, olduse: nat)
    requires count <= |c.dp| && count <= W.Length && olduse <= |c.dp|
    requires forall k: nat :: olduse <= k < |c.dp| ==> c.dp[k] == 0
    modifies c`dp
    ensures |c.dp| == old(|c.dp|)
    ensures forall j: nat :: j < count ==> c.dp[j] == W[j]
    ensures forall k: nat :: count <= k < |c.dp| ==> c.dp[k] == 0
  {
    ghost var C := c.dp;
    var ix := 0;
    while ix < count
      invariant ix <= count && |c.dp| == |C|
      invariant forall j: nat :: j < ix ==> c.dp[j] == W[j]
      invariant forall j: nat :: ix <= j < |C| ==> c.dp[j] == C[j]
      modifies c`dp
    {
      c.dp := c.dp[ix := W[ix]];
      ix := ix + 1;
    }
    while ix < olduse
      invariant count <= ix && |c.dp| == |C| && olduse <= |C|
      invariant forall j: nat :: j < count ==> c.dp[j] == W[j]
      invariant forall j: nat :: count <= j < |C| ==> c.dp[j] == if j < ix then 0 else C[j]
      modifies c`dp
    {
      c.dp := c.dp[ix := 0];
      ix := ix + 1;
    }
  }

  /** The column of a square: products of different digits are summed once and doubled. */
  lemma SquareColumnValue(a: seq<int>, used: nat, tx: nat, ty: int, ix: nat)
    requires used > 0 && ix < 2 * used && ty == Min(used - 1, ix) && tx == ix - ty
    requires forall j: nat :: used <= j < |a| ==> a[j] == 0
    ensures Min(used - tx, ty + 1) == ty - tx + 1 >= 0
    ensures Column(a, a, used, ix) ==
      2 * Span(a, tx, (ty - tx + 1) / 2, ix) + (if ix % 2 == 0 then At(a, ix / 2) * At(a, ix / 2) else 0)
  {
    var c := ty - tx + 1;
    ColumnStart(a, a, tx, used, ix);
    ColumnSplit(a, tx, c, ix);
    ColumnEnd(a, a, tx + c, used, ix);
    SpanHalves(a, tx, ty, ix);
  }

  method SquareColumn(a: MpInt, ix: nat, carry: Word) returns (w: Word)
    requires a.Loose() && ix < 2 * a.used && carry < COLUMNS * B && a.used < COLUMNS / 2
    ensures w == carry + Column(a.dp, a.dp, a.used, ix)
  {
    hide Column, Span;
    var ty := Min(a.used - 1, ix);
    var tx := ix - ty;
    SquareColumnValue(a.dp, a.used, tx, ty, ix);
    var iy := Min(a.used - tx, ty + 1);
    iy := Min(iy, (ty - tx + 1) / 2);
    w := 0;
    var iz := 0;
    SpanNone(a.dp, tx, ix);
    assert 0 * ((B - 1) * (B - 1)) == 0;
    while iz < iy
      invariant 0 <= iz <= iy && w == Span(a.dp, tx, iz, ix) && w <= iz * ((B - 1) * (B - 1))
    {
      CarryZero();
      OneMoreProduct(a.dp[tx + iz], a.dp[ty - iz], w, 0, iz);
      SpanNext(a.dp, tx, iz, ix);
      w := WordAdd(w, a.dp[tx + iz] * a.dp[ty - iz]);
      iz := iz + 1;
    }
    ghost var sum := w;
    DoubledFits(w, carry, iz, if ix % 2 == 0 then a.dp[ix / 2] else 0);
    w := WordAdd(WordAdd(w, w), carry);
    if ix % 2 == 0 {
      w := WordAdd(w, a.dp[ix / 2] * a.dp[ix / 2]);
    }
  }

  lemma CarryZero()
    ensures 0 < COLUMNS * B
  {}

  lemma SpanNone(a: seq<int>, lo: nat, n: nat)
    ensures Span(a, lo, 0, n) == 0
  {}

  lemma SpanNext(a: seq<int>, lo: nat, count: nat, n: nat)
    ensures Span(a, lo, count + 1, n) == Span(a, lo, count, n) + Term(a, a, lo + count, n)
  {}

  /** Twice the products, the carry and a square fit into a word. */
  lemma DoubledFits(w: int, carry: int, i: nat, x: int)
    requires 0 <= w <= i * ((B - 1) * (B - 1)) && 0 <= carry < COLUMNS * B && 2 * i + 1 <= COLUMNS && IsDigit(x)
    ensures w + w < LIMIT && w + w + carry < LIMIT && 0 <= x * x && w + w + carry + x * x < LIMIT
  {
    var q, s := (B - 1) * (B - 1), x * x;
    ProductsFit(2 * i + 1, carry);
    assert 0 <= s <= q by { ProductBound(x, x); }
    assert (2 * i + 1) * q == i * q + i * q + q by { MulDist(i, i, q); MulDist(2 * i, 1, q); }
  }

  /** The square's digits, into the column array. */
  method SquareDigits(a: MpInt, W: array<int>)
    requires a.Loose() && 2 * a.used <= W.Length && a.used < COLUMNS / 2
    modifies W
    ensures forall j: nat :: j < 2 * a.used ==> IsDigit(W[j])
    ensures Low(W[..], 2 * a.used) == a.Mag() * a.Mag()
  {
    var pa := a.used + a.used;
    assert Settled(W[..], a.dp, a.dp, a.used, 0, 0);
    hide *;
    CarryZero();
    var w: Word := 0;
    var ix := 0;
    while ix < pa
      invariant ix <= pa && w < COLUMNS * B && Settled(W[..], a.dp, a.dp, a.used, ix, w)
    {
      ghost var s, carry := W[..], w;
      w := SquareColumn(a, ix, w);
      SettleOne(s, a.dp, a.dp, a.used, ix, carry, w);
      W[ix] := w % B;
      assert W[..] == s[ix := w % B];
      w := w / B;
      ix := ix + 1;
    }
    SettledDigits(W[..], a.dp, a.dp, a.used, pa, w);
    AllSettled(W[..], a, a, w);
  }

  /** fast_s_mp_sqr: |b| = a * a. */
  method SqrDigits(a: MpInt, b: MpInt)
    requires a.Ok() && b.Loose() && 2 * a.used + 1 < WARRAY && a.used < COLUMNS / 2
    modifies b
    ensures b.Ok() && b.Mag() == old(a.Mag()) * old(a.Mag()) && |b.dp| >= old(|b.dp|)
  {
    hide Low, BP, Val;
    var pa := a.used + a.used;
    Grow(b, pa);
    var W := new int[WARRAY];
    SquareDigits(a, W);
    var olduse := b.used;
    b.used := pa;
    CopyWords(b, W, pa, olduse);
    LowNone(W[..]);
    LowNone(b.dp);
    LowSame(W[..], b.dp, 0, pa);
    UsedValue(b, pa);
    Clamp(b);
  }
}
