/** mp_mul and mp_sqr: Karatsuba, column-wise and schoolbook multiplication (bn_mp_mul.c,
    bn_mp_karatsuba_mul.c, bn_s_mp_mul_digs.c, bn_mp_sqr.c, bn_mp_karatsuba_sqr.c, bn_s_mp_sqr.c). */
module Mul {
  import opened Arith
  import opened Digits
  import opened Words
  import opened MpInts
  import opened MpAdd
  import opened MpShift
  import opened Montgomery
  import opened MulComba

  /** Sizes from which on Karatsuba is used; bncore.c has 80 and 120.  Below four digits the halves would not shrink. */
  type Cutoff = c: nat | 4 <= c witness 80
  const MUL_CUTOFF: Cutoff
  const SQR_CUTOFF: Cutoff

  /** One row of the schoolbook product: t += d * b at place ix, the digits from ix + b.used on being zero so far. */
  method AddProductRow(t: MpInt, b: MpInt, d: nat, ix: nat)
    requires t != b && b.Loose() && IsDigit(d) && DigitsOk(t.dp) && ix + b.used < |t.dp|
    requires forall j: nat :: ix + b.used <= j < |t.dp| ==> t.dp[j] == 0
    modifies t`dp
    ensures |t.dp| == old(|t.dp|) && DigitsOk(t.dp)
    ensures forall j: nat :: ix + b.used + 1 <= j < |t.dp| ==> t.dp[j] == 0
    ensures t.Mag() == old(t.Mag()) + d * b.Mag() * BP(ix)
  {
    UsedValue(b, b.used);
    assert b.used <= |b.dp| && DigitsOk(b.dp);
    ghost var X, L := t.dp, |t.dp|;
    hide *;
    var u: int, iy := 0, 0;
    AccumStart(X, b.dp, d, ix, L);
    while iy < b.used
      invariant iy <= b.used && |t.dp| == |X|
      invariant Accum(t.dp, X, b.dp, d, ix, iy, u, L)
      modifies t`dp
    {
      var r := t.dp[ix + iy] + d * b.dp[iy] + u;
      AccumStep(t.dp, X, b.dp, d, ix, iy, u, L, r);
      t.dp := t.dp[ix + iy := r % B];
      u := r / B;
      iy := iy + 1;
    }
    AccumEnd(t.dp, X, b.dp, d, ix, iy, u, L);
    LastCarry(t.dp, X, ix + iy, u, L, Low(X, L) + d * b.Mag() * BP(ix), t.dp[ix + iy := u]);
    t.dp := t.dp[ix + iy := u];
    ValIsLow(X);
    ValIsLow(t.dp);
  }

  lemma ValIsLow(s: seq<int>)
    ensures Val(s) == Low(s, |s|)
  {}

  lemma LastCarry(s: seq<int>, X: seq<int>, j: nat, u: int, L: nat, total: int, s': seq<int>)
    requires j < |s| == |X| == L && DigitsOk(s) && IsDigit(u) && Low(s, L) + u * BP(j) == total
    requires forall k: nat :: j <= k < |s| ==> k < |X| && s[k] == X[k]
    requires forall k: nat :: j <= k < |X| ==> X[k] == 0
    requires s' == s[j := u]
    ensures DigitsOk(s') && Low(s', L) == total
    ensures forall k: nat :: j + 1 <= k < |s'| ==> s'[k] == 0
  {
    assert s[j] == X[j] == 0;
    LowUpdate(s, j, u, L);
  }

  lemma RowTotal(a: seq<int>, ix: nat, m: int)
    ensures Low(a, ix) * m + At(a, ix) * m * BP(ix) == Low(a, ix + 1) * m
  {
    LowNext(a, ix);
    MulDist(Low(a, ix), At(a, ix) * BP(ix), m);
    MulAssoc(At(a, ix), BP(ix), m);
    MulAssoc(At(a, ix), m, BP(ix));
  }

  /** s_mp_mul_digs with all digits wanted: |c| = |a| * |b|. */
  method MulBaseline(a: MpInt, b: MpInt, c: MpInt)
    requires a.Ok() && b.Ok() && c.Loose()
    modifies c
    ensures c.Ok() && c.Mag() == old(a.Mag()) * old(b.Mag())
  {
    hide Low, BP, Val, DigitsOk, At;
    var digs := a.used + b.used + 1;
    var t: MpInt := new MpInt.Sized(digs);
    t.used := digs;
    ghost var m := b.Mag();
    UsedValue(a, a.used);
    LowNone(a.dp);
    var ix := 0;
    while ix < a.used
      invariant ix <= a.used && t.Loose() && t.used == digs
      invariant forall j: nat :: ix + b.used <= j < |t.dp| ==> t.dp[j] == 0
      invariant t.Mag() == Low(a.dp, ix) * m
      modifies t`dp
    {
      DigitOf(a, ix);
      RowTotal(a.dp, ix, m);
      AddProductRow(t, b, a.dp[ix], ix);
      ix := ix + 1;
    }
    Clamp(t);
    Exch(t, c);
  }

  lemma DigitOf(a: MpInt, i: nat)
    requires a.Loose() && i < a.used
    ensures IsDigit(a.dp[i]) && At(a.dp, i) == a.dp[i]
  {}

  /** x takes the digits of a from `from` up to `to`; fresh storage, so nothing needs clearing. */
  method TakeDigits(a: MpInt, from: nat, to: nat) returns (x: MpInt)
    requires a.Loose() && from <= to <= a.used
    ensures fresh(x) && x.Loose() && x.used == to - from && x.sign == ZPos
    ensures x.Mag() * BP(from) == Low(a.dp, to) - Low(a.dp, from)
    ensures to > from && to == a.used && a.Ok() ==> x.Ok()
  {
    hide Low, BP, Val;
    x := new MpInt.Sized(to - from);
    x.used := to - from;
    var i := from;
    while i < to
      invariant from <= i <= to && DigitsOk(x.dp) && to - from < |x.dp|
      invariant forall k: nat :: k < i - from ==> x.dp[k] == a.dp[from + k]
      invariant forall k: nat :: i - from <= k < |x.dp| ==> x.dp[k] == 0
      modifies x`dp
    {
      x.dp := x.dp[i - from := a.dp[i]];
      i := i + 1;
    }
    UsedValue(x, to - from);
    forall k: nat | k < to - from ensures At(a.dp, from + k) == At(x.dp, k) {
      assert x.dp[k] == a.dp[from + k];
    }
    LowShift(x.dp, a.dp, from, to - from);
    if to > from {
      var k := to - from - 1;
      assert x.dp[k] == a.dp[from + k];
    }
  }

  /** The three products recombine. */
  lemma Recombine(x0: int, x1: int, y0: int, y1: int, p: int)
    ensures (x1 + x0) * (y1 + y0) - (x0 * y0 + x1 * y1) == x1 * y0 + x0 * y1
    ensures x0 * y0 + p * (x1 * y0 + x0 * y1) + p * p * (x1 * y1) == (x1 * p + x0) * (y1 * p + y0)
  {
    assert (x1 + x0) * (y1 + y0) == x1 * (y1 + y0) + x0 * (y1 + y0);
    calc {
      (x1 * p + x0) * (y1 * p + y0);
      x1 * p * (y1 * p + y0) + x0 * (y1 * p + y0);
      x1 * p * (y1 * p) + x1 * p * y0 + x0 * (y1 * p) + x0 * y0;
      { assert x1 * p * (y1 * p) == p * p * (x1 * y1); assert x1 * p * y0 == p * (x1 * y0); assert x0 * (y1 * p) == p * (x0 * y1); }
      p * p * (x1 * y1) + p * (x1 * y0) + p * (x0 * y1) + x0 * y0;
    }
  }

  /** A number below BP(n) has at most n digits. */
  lemma UsedBelow(x: MpInt, n: nat)
    requires x.Ok() && x.Mag() < BP(n)
    ensures x.used <= n
  {
    MagBounds(x);
    if x.used > n { BPMono(n, x.used - 1); }
  }

  /** Adding the halves takes at most one digit more than the longer half. */
  lemma HalfSum(x0: int, x1: int, b: nat, m: nat)
    requires 0 <= x0 < BP(b) && 0 <= x1 < BP(m) && b <= m
    ensures x0 + x1 < BP(m + 1)
  {
    BPMono(b, m);
    BPStep(m);
    MulMono(2, B, BP(m));
  }

  /** The two halves of an operand: the upper one keeps its top digit, the lower one is clamped. */
  method Halves(a: MpInt, b: nat) returns (x0: MpInt, x1: MpInt)
    requires a.Ok() && 0 < b < a.used
    ensures fresh(x0) && fresh(x1) && x0 != x1 && x0.Valid() && x1.Valid() && x0.sign == ZPos && x1.sign == ZPos
    ensures x0.used <= b && x1.used == a.used - b && a.Mag() == x1.Mag() * BP(b) + x0.Mag()
    ensures 0 <= x0.Mag() < BP(b) && 0 <= x1.Mag() < BP(a.used - b)
  {
    hide Low, BP, Val;
    x0 := TakeDigits(a, 0, b);
    x1 := TakeDigits(a, b, a.used);
    BPNone();
    LowNone(a.dp);
    UsedValue(a, a.used);
    LowBound(a.dp, b);
    Clamp(x0);
    MagBounds(x1);
  }

  /** What the three products amount to. */
  ghost predicate Parts(P: int, Q: int, R: int, h: nat, total: int) {
    P >= 0 && Q >= 0 && R >= P + Q && total == P + BP(h) * (R - P - Q) + BP(2 * h) * Q && total >= 0
  }

  lemma PartsOf(x0: int, x1: int, y0: int, y1: int, h: nat, a: int, b: int)
    requires x0 >= 0 && x1 >= 0 && y0 >= 0 && y1 >= 0 && a == x1 * BP(h) + x0 && b == y1 * BP(h) + y0
    ensures Parts(x0 * y0, x1 * y1, (x1 + x0) * (y1 + y0), h, a * b)
  {
    Recombine(x0, x1, y0, y1, BP(h));
    BPAdd(h, h);
    assert h + h == 2 * h;
    BPPositive(h);
    MulNonNegative(x0, y0);
    MulNonNegative(x1, y1);
    MulNonNegative(x1, y0);
    MulNonNegative(x0, y1);
    MulNonNegative(x1, BP(h));
    MulNonNegative(y1, BP(h));
    MulNonNegative(a, b);
  }

  /** mp_karatsuba_mul: |c| = |a| * |b|, from three products of half the size. */
  method Karatsuba(a: MpInt, b: MpInt, c: MpInt)
    requires a.Ok() && b.Ok() && c.Loose() && a.used >= 4 && b.used >= 4
    modifies c
    ensures c.Valid() && c.sign == ZPos && c.Int() == old(a.Mag()) * old(b.Mag())
    decreases a.used + b.used, 1
  {
    hide *;
    var h := if a.used < b.used then a.used / 2 else b.used / 2;
    var x0, x1 := Halves(a, h);
    var y0, y1 := Halves(b, h);
    Plain(x0); Plain(x1); Plain(y0); Plain(y1);
    PartsOf(x0.Mag(), x1.Mag(), y0.Mag(), y1.Mag(), h, a.Mag(), b.Mag());
    ghost var P, Q, total := x0.Int() * y0.Int(), x1.Int() * y1.Int(), a.Mag() * b.Mag();
    var x0y0 := new MpInt.Sized(h * 2);
    var x1y1 := new MpInt.Sized(h * 2);
    Plain(x0y0); Plain(x1y1);
    Multiply(x0, y0, x0y0);
    Multiply(x1, y1, x1y1);
    var t1 := MiddleProduct(x0, x1, y0, y1, h, a.used, b.used);
    Plain(x0); Plain(x0y0); Plain(x1y1);
    Add(x0y0, x1y1, x0);
    Combine(x0, t1, x0y0, x1y1, c, h, P, Q, t1.Int(), total);
  }

  /** t1 = (x1 + x0) * (y1 + y0), x0 being used for the second sum. */
  method MiddleProduct(x0: MpInt, x1: MpInt, y0: MpInt, y1: MpInt, h: nat, n: nat, m: nat) returns (t1: MpInt)
    requires x0.Valid() && x1.Valid() && y0.Valid() && y1.Valid() && x0 !in {x1, y0, y1}
    requires x0.sign == ZPos && x1.sign == ZPos && y0.sign == ZPos && y1.sign == ZPos
    requires 2 <= h && 2 * h <= n && 2 * h <= m
    requires x0.Mag() < BP(h) && x1.Mag() < BP(n - h) && y0.Mag() < BP(h) && y1.Mag() < BP(m - h)
    modifies x0
    ensures fresh(t1) && t1.Valid() && x0.Valid()
    ensures t1.Int() == (old(x1.Mag()) + old(x0.Mag())) * (old(y1.Mag()) + old(y0.Mag()))
    decreases n + m, 0
  {
    hide *;
    Plain(x0); Plain(x1); Plain(y0); Plain(y1);
    t1 := new MpInt.Sized(h * 2);
    Plain(t1);
    HalfSum(x0.Mag(), x1.Mag(), h, n - h);
    HalfSum(y0.Mag(), y1.Mag(), h, m - h);
    SAdd(x1, x0, t1);
    Unsigned(t1);
    UsedBelow(t1, n - h + 1);
    SAdd(y1, y0, x0);
    Unsigned(x0);
    UsedBelow(x0, m - h + 1);
    Multiply(t1, x0, t1);
  }

  /** The subtraction, shifts and additions that put the three products together. */
  method Combine(x0: MpInt, t1: MpInt, x0y0: MpInt, x1y1: MpInt, c: MpInt, h: nat, ghost P: int, ghost Q: int, ghost R: int, ghost total: int)
    requires x0.Valid() && t1.Valid() && x0y0.Valid() && x1y1.Valid() && c.Loose()
    requires x0 !in {t1, x0y0, x1y1} && t1 !in {x0y0, x1y1} && x0y0 != x1y1 && c !in {x0, t1, x0y0, x1y1}
    requires x0y0.Int() == P && x1y1.Int() == Q && t1.Int() == R && x0.Int() == P + Q && Parts(P, Q, R, h, total)
    modifies t1, x1y1, c
    ensures c.Valid() && c.sign == ZPos && c.Int() == total
  {
    assert P >= 0 && Q >= 0 && R >= P + Q && total == P + BP(h) * (R - P - Q) + BP(2 * h) * Q && total >= 0;
    hide *;
    BPNone();
    Plain(x0); Plain(x0y0); Plain(x1y1); Plain(t1);
    OrderByUsed(x0, t1);
    SSub(t1, x0, t1);
    Unsigned(t1);
    Lshd(t1, h);
    LooseInt(t1);
    Lshd(x1y1, h * 2);
    LooseInt(x1y1);
    Add(x0y0, t1, t1);
    Plain(t1);
    Add(t1, x1y1, c);
    Plain(c);
  }

  lemma LooseInt(x: MpInt)
    ensures x.Int() == Signed(x.sign, x.Mag()) && (x.sign == ZPos ==> x.Int() == x.Mag())
  {}

  /** mp_mul on operands that go to the column form, for any stale word: the digits below `used` are those of the
      product, and the number is well formed exactly if the word was zero. */
  method MultiplyColumns(a: MpInt, b: MpInt, c: MpInt, stale: int)
    requires a.Valid() && b.Valid() && c.Loose()
    requires a.used + b.used + 1 < WARRAY && (a.used <= COLUMNS || b.used <= COLUMNS)
    modifies c
    ensures c.used <= |c.dp| && Signed(c.sign, Low(c.dp, c.used)) == old(a.Int()) * old(b.Int())
    ensures c.Valid() <==> stale == 0
  {
    var neg := if a.sign == b.sign then ZPos else Neg;
    ghost var product := a.Mag() * b.Mag();
    SignedProduct(a, b, product);
    MulDigits(a, b, c, stale);
    LowNone(c.dp);
    hide Low, Val;
    c.sign := if c.used > 0 then neg else ZPos;
  }

  /** mp_mul */
  method Multiply(a: MpInt, b: MpInt, c: MpInt)
    requires a.Valid() && b.Valid() && c.Loose()
    modifies c
    ensures c.Valid() && c.Int() == old(a.Int()) * old(b.Int())
    decreases a.used + b.used, 2
  {
    var neg := if a.sign == b.sign then ZPos else Neg;
    ghost var product := a.Mag() * b.Mag();
    SignedProduct(a, b, product);
    hide *;
    Plain(a); Plain(b);
    var small := if a.used < b.used then a.used else b.used;
    if small >= MUL_CUTOFF {
      CutoffBound(a.used, b.used, small);
      Karatsuba(a, b, c);
      Plain(c);
    } else {
      var digs := a.used + b.used + 1;
      if digs < WARRAY && small <= COLUMNS {
        MulDigits(a, b, c, 0);
      } else {
        MulBaseline(a, b, c);
      }
    }
    SetSign(c, neg);
  }

  lemma CutoffBound(x: nat, y: nat, small: nat)
    requires small >= MUL_CUTOFF && small <= x && small <= y
    ensures x >= 4 && y >= 4
  {}

  lemma SignedProduct(a: MpInt, b: MpInt, m: int)
    requires m == a.Mag() * b.Mag()
    ensures Signed(if a.sign == b.sign then ZPos else Neg, m) == a.Int() * b.Int()
  {
    var x, y := a.Mag(), b.Mag();
    assert (-x) * y == -(x * y) && x * (-y) == -(x * y) && (-x) * (-y) == x * y;
  }

  /** Zero stays positive. */
  method SetSign(c: MpInt, neg: Sign)
    requires c.Ok()
    modifies c`sign
    ensures c.Valid() && c.Int() == Signed(neg, old(c.Mag()))
  {
    MagBounds(c);
    c.sign := if c.used > 0 then neg else ZPos;
  }

  /** What is left of a above digit ix; the rows below ix have contributed V * V - Rest * Rest. */
  ghost predicate SquareRows(s: seq<int>, a: seq<int>, n: nat, ix: nat, L: nat) {
    && DigitsOk(s) && DigitsOk(a) && n <= |a| && ix <= n && 2 * n < L <= |s|
    && Low(s, L) == Low(a, n) * Low(a, n) - (Low(a, n) - Low(a, ix)) * (Low(a, n) - Low(a, ix))
  }

  /** Inside row ix, as far as digit iy: the square of digit ix and twice its products with the digits between. */
  ghost predicate SquareRow(s: seq<int>, a: seq<int>, n: nat, ix: nat, iy: nat, u: int, L: nat) {
    && DigitsOk(s) && DigitsOk(a) && n <= |a| && ix < iy <= n && 2 * n < L <= |s| && 0 <= u < 2 * B
    && (Low(s, L) + u * BP(ix + iy) == Low(a, n) * Low(a, n)
      - (Low(a, n) - Low(a, ix)) * (Low(a, n) - Low(a, ix))
      + a[ix] * a[ix] * BP(ix + ix) + 2 * a[ix] * (Low(a, iy) - Low(a, ix + 1)) * BP(ix))
  }

  lemma SquareRowStart(s: seq<int>, a: seq<int>, n: nat, ix: nat, L: nat, r: int)
    requires SquareRows(s, a, n, ix, L) && ix < n && r == s[ix + ix] + a[ix] * a[ix]
    ensures SquareRow(s[ix + ix := r % B], a, n, ix, ix + 1, r / B, L)
  {
    ColumnBound(a[ix], a[ix], 0, s[ix + ix]);
    ColumnValue(s, ix + ix, L, r, 0, a[ix] * a[ix]);
    assert 2 * a[ix] * (Low(a, ix + 1) - Low(a, ix + 1)) == 0;
    assert ix + (ix + 1) == ix + ix + 1;
  }

  lemma TwiceBound(x: int, y: int, d: int, u: int)
    requires IsDigit(x) && IsDigit(y) && IsDigit(d) && 0 <= u < 2 * B
    ensures var r := d + x * y + x * y + u; 0 <= r / B < 2 * B && 0 <= r % B < B
  {
    MulMono(x, B - 1, y);
    MulMono(y, B - 1, B - 1);
    MulNonNegative(x, y);
    var r := d + x * y + x * y + u;
    assert r < 2 * B * B;
    DivModDef(r, B);
    MulCancel(r / B, 2 * B, B);
    MulCancel(-1, r / B, B);
  }

  lemma SquareRowStep(s: seq<int>, a: seq<int>, n: nat, ix: nat, iy: nat, u: int, L: nat, r: int)
    requires SquareRow(s, a, n, ix, iy, u, L) && iy < n && r == s[ix + iy] + a[ix] * a[iy] + a[ix] * a[iy] + u
    ensures SquareRow(s[ix + iy := r % B], a, n, ix, iy + 1, r / B, L)
  {
    hide Low, BP;
    var m := a[ix] * a[iy];
    TwiceBound(a[ix], a[iy], s[ix + iy], u);
    ColumnValue(s, ix + iy, L, r, u, m + m);
    LowNext(a, iy);
    BPAdd(ix, iy);
    TwiceStep(a[ix], a[iy], BP(ix), BP(iy), Low(a, iy), Low(a, ix + 1));
    assert ix + (iy + 1) == ix + iy + 1;
  }

  lemma TwiceStep(x: int, y: int, p: int, q: int, l: int, k: int)
    ensures 2 * x * (l + y * q - k) * p == 2 * x * (l - k) * p + (x * y + x * y) * (p * q)
  {
    assert 2 * x * (l + y * q - k) == 2 * x * (l - k) + 2 * x * (y * q);
    MulDist(2 * x * (l - k), 2 * x * (y * q), p);
    assert 2 * x * (y * q) * p == (x * y + x * y) * (p * q) by {
      MulAssoc(2 * x, y, q);
      MulAssoc(2 * x * y, q, p);
    }
  }

  /** A finished row: with its carry it completes one more term of the square. */
  lemma SquareRowEnd(s: seq<int>, a: seq<int>, n: nat, ix: nat, u: int, L: nat) returns (total: int)
    requires SquareRow(s, a, n, ix, n, u, L)
    ensures Low(s, L) + u * BP(ix + n) == total < BP(L) && DigitsOk(s) && 0 <= u < 2 * B && ix + n <= L <= |s|
    ensures forall s': seq<int> :: |s'| == |s| && DigitsOk(s') && Low(s', L) == total ==> SquareRows(s', a, n, ix + 1, L)
  {
    var V, l, d, p := Low(a, n), Low(a, ix), a[ix], BP(ix);
    LowNext(a, ix);
    BPAdd(ix, ix);
    BinomialStep(V, l, d, p);
    LowBound(a, n);
    BPAdd(n, n);
    ProductBelow(V, V, BP(n), BP(n));
    BPMono(n + n, L);
    var k := V - l - d * p;
    total := V * V - k * k;
    SquareNatural(k);
  }

  lemma SquareNatural(k: int)
    ensures k * k >= 0
  {}

  lemma BinomialStep(V: int, l: int, d: int, p: int)
    ensures V * V - (V - l) * (V - l) + d * d * (p * p) + 2 * d * (V - (l + d * p)) * p == V * V - (V - (l + d * p)) * (V - (l + d * p))
  {
    var h, e := V - l, d * p;
    assert (h - e) * (h - e) == h * h - 2 * (h * e) + e * e;
    assert d * d * (p * p) == e * e by { MulAssoc(d, d, p * p); MulAssoc(d, p, p); MulAssoc(d, p, d * p); assert d * (p * p) == p * (d * p); }
    assert 2 * d * (h - e) * p == 2 * (h * e) - 2 * (e * e) by {
      assert 2 * d * (h - e) * p == 2 * (d * (h - e) * p);
      assert d * (h - e) * p == (h - e) * (d * p) by { MulAssoc(h - e, d, p); }
    }
  }

  /** One row of the schoolbook square. */
  method SquareRowDigits(t: MpInt, a: MpInt, ix: nat, L: nat)
    requires t != a && a.Loose() && ix < a.used && 2 * a.used < L <= |t.dp| && DigitsOk(t.dp)
    requires SquareRows(t.dp, a.dp, a.used, ix, L) && forall k: nat :: L <= k < |t.dp| ==> t.dp[k] == 0
    modifies t`dp
    ensures |t.dp| == old(|t.dp|) && DigitsOk(t.dp) && SquareRows(t.dp, a.dp, a.used, ix + 1, L)
    ensures forall k: nat :: L <= k < |t.dp| ==> t.dp[k] == 0
  {
    assert a.used <= |a.dp|;
    hide *;
    var n := a.used;
    var r := t.dp[ix + ix] + a.dp[ix] * a.dp[ix];
    SquareRowStart(t.dp, a.dp, n, ix, L, r);
    t.dp := t.dp[ix + ix := r % B];
    var u: int := r / B;
    var iy := ix + 1;
    while iy < n
      invariant ix < iy <= n && |t.dp| == old(|t.dp|)
      invariant SquareRow(t.dp, a.dp, n, ix, iy, u, L)
      invariant forall k: nat :: L <= k < |t.dp| ==> t.dp[k] == 0
    {
      r := t.dp[ix + iy] + a.dp[ix] * a.dp[iy] + a.dp[ix] * a.dp[iy] + u;
      SquareRowStep(t.dp, a.dp, n, ix, iy, u, L, r);
      t.dp := t.dp[ix + iy := r % B];
      u := r / B;
      iy := iy + 1;
    }
    ghost var total := SquareRowEnd(t.dp, a.dp, n, ix, u, L);
    Propagate(t, u, ix + n, L, total);
  }

  /** s_mp_sqr: |b| = a * a. */
  method SqrBaseline(a: MpInt, b: MpInt)
    requires a.Ok() && b.Loose()
    modifies b
    ensures b.Ok() && b.Mag() == old(a.Mag()) * old(a.Mag())
  {
    hide Low, BP, Val, SquareRows;
    var pa := a.used;
    var t: MpInt := new MpInt.Sized(2 * pa + 1);
    t.used := 2 * pa + 1;
    UsedValue(t, 2 * pa + 1);
    SquareRowsStart(t.dp, a.dp, pa, 2 * pa + 1);
    var ix := 0;
    while ix < pa
      invariant ix <= pa && DigitsOk(t.dp) && t.used == 2 * pa + 1 <= |t.dp|
      invariant SquareRows(t.dp, a.dp, pa, ix, 2 * pa + 1)
      invariant forall k: nat :: 2 * pa + 1 <= k < |t.dp| ==> t.dp[k] == 0
      modifies t`dp
    {
      SquareRowDigits(t, a, ix, 2 * pa + 1);
      ix := ix + 1;
    }
    UsedValue(t, 2 * pa + 1);
    UsedValue(a, pa);
    SquareRowsEnd(t.dp, a.dp, pa, 2 * pa + 1);
    Clamp(t);
    Exch(t, b);
  }

  lemma SquareRowsStart(s: seq<int>, a: seq<int>, n: nat, L: nat)
    requires DigitsOk(s) && DigitsOk(a) && n <= |a| && 2 * n < L <= |s| && Low(s, L) == 0
    ensures SquareRows(s, a, n, 0, L)
  {}

  lemma SquareRowsEnd(s: seq<int>, a: seq<int>, n: nat, L: nat)
    requires SquareRows(s, a, n, n, L)
    ensures Low(s, L) == Low(a, n) * Low(a, n)
  {}

  /** mp_karatsuba_sqr: |b| = a * a. */
  method KaratsubaSqr(a: MpInt, b: MpInt)
    requires a.Ok() && b.Loose() && a.used >= 4
    modifies b
    ensures b.Valid() && b.sign == ZPos && b.Int() == old(a.Mag()) * old(a.Mag())
    decreases a.used, 1
  {
    hide *;
    var h := a.used / 2;
    var x0, x1 := Halves(a, h);
    Plain(x0); Plain(x1);
    PartsOf(x0.Mag(), x1.Mag(), x0.Mag(), x1.Mag(), h, a.Mag(), a.Mag());
    ghost var P, Q, R := x0.Mag() * x0.Mag(), x1.Mag() * x1.Mag(), (x1.Mag() + x0.Mag()) * (x1.Mag() + x0.Mag());
    ghost var total := a.Mag() * a.Mag();
    var t2 := new MpInt.Sized(a.used * 2);
    var x0x0 := new MpInt.Sized(h * 2);
    var x1x1 := new MpInt.Sized((a.used - h) * 2);
    Plain(t2); Plain(x0x0); Plain(x1x1);
    Square(x0, x0x0);
    Square(x1, x1x1);
    var t1 := MiddleSquare(x0, x1, h, a.used);
    Plain(x0x0); Plain(x1x1);
    SAdd(x0x0, x1x1, t2);
    Unsigned(t2);
    Combine(t2, t1, x0x0, x1x1, b, h, P, Q, R, total);
  }

  /** t1 = (x1 + x0)^2. */
  method MiddleSquare(x0: MpInt, x1: MpInt, h: nat, n: nat) returns (t1: MpInt)
    requires x0.Valid() && x1.Valid() && x0.sign == ZPos && x1.sign == ZPos && 2 <= h && 2 * h <= n
    requires x0.Mag() < BP(h) && x1.Mag() < BP(n - h)
    ensures fresh(t1) && t1.Valid() && t1.Int() == (x1.Mag() + x0.Mag()) * (x1.Mag() + x0.Mag())
    decreases n, 0
  {
    hide *;
    Plain(x0); Plain(x1);
    t1 := new MpInt.Sized(n * 2);
    Plain(t1);
    HalfSum(x0.Mag(), x1.Mag(), h, n - h);
    SAdd(x1, x0, t1);
    Unsigned(t1);
    UsedBelow(t1, n - h + 1);
    Square(t1, t1);
  }

  /** mp_sqr: b = a * a. */
  method Square(a: MpInt, b: MpInt)
    requires a.Valid() && b.Loose()
    modifies b
    ensures b.Valid() && b.Int() == old(a.Int()) * old(a.Int()) == old(a.Mag()) * old(a.Mag())
    decreases a.used, 2
  {
    ghost var m := a.Mag() * a.Mag();
    SquareSign(a);
    hide *;
    Plain(a);
    if a.used >= SQR_CUTOFF {
      CutoffSqrBound(a.used);
      KaratsubaSqr(a, b);
      Plain(b);
    } else if a.used * 2 + 1 < WARRAY && a.used < COLUMNS / 2 {
      SqrDigits(a, b);
    } else {
      SqrBaseline(a, b);
    }
    ClearSign(b);
  }

  lemma CutoffSqrBound(x: nat)
    requires x >= SQR_CUTOFF
    ensures x >= 4
  {}

  lemma SquareSign(a: MpInt)
    ensures a.Int() * a.Int() == a.Mag() * a.Mag()
  {
    assert (-a.Mag()) * (-a.Mag()) == a.Mag() * a.Mag();
  }

  method ClearSign(b: MpInt)
    requires b.Ok()
    modifies b`sign
    ensures b.Valid() && b.Int() == old(b.Mag())
  {
    MagBounds(b);
    b.sign := ZPos;
  }
}
