/** Single-digit and bit-level helpers (bn_mp_cmp_d.c, bn_mp_sub_d.c, bn_mp_cnt_lsb.c, bn_mp_div_2.c). */
module MpSmall {
  import opened Arith
  import opened Digits
  import opened MpInts
  import opened MpAdd
  import opened MpShift

  /** mp_iszero, mp_isodd and mp_iseven (tommath.h); zero is neither odd nor even. */
  predicate IsZero(a: MpInt)
    reads a
  {
    a.used == 0
  }

  predicate IsOdd(a: MpInt)
    reads a
  {
    a.used > 0 && |a.dp| > 0 && a.dp[0] % 2 == 1
  }

  predicate IsEven(a: MpInt)
    reads a
  {
    a.used > 0 && |a.dp| > 0 && a.dp[0] % 2 == 0
  }

  lemma TwiceEven(z: int)
    ensures z * 2 % 2 == 0
  {}

  lemma EvenProduct(x: int, y: int)
    requires y % 2 == 0
    ensures x * y % 2 == 0
  {
    var h := y / 2;
    MulAssoc(x, h, 2);
    assert h * 2 == y;
    TwiceEven(x * h);
  }

  /** Every weight but the first is even. */
  lemma EvenWeight(n: nat)
    requires n > 0
    ensures BP(n) % 2 == 0
  {
    BPStep(n - 1);
    EvenRadix();
    hide BP;
    EvenProduct(BP(n - 1), B);
  }

  lemma EvenRadix()
    ensures B % 2 == 0
  {
    WidthBound();
    TwiceEven(2 * Pow(2, DIGIT_BIT - 2));
  }

  lemma EvenSum(x: int, y: int)
    requires y % 2 == 0
    ensures (x + y) % 2 == x % 2
  {}

  lemma {:induction false} LowParity(s: seq<int>, n: nat)
    requires 0 < n <= |s|
    ensures Low(s, n) % 2 == s[0] % 2
    decreases n
  {
    if n == 1 {
      LowNone(s);
      LowNext(s, 0);
      BPNone();
    } else {
      LowParity(s, n - 1);
      EvenWeight(n - 1);
      LowNext(s, n - 1);
      hide Low, BP;
      EvenProduct(s[n - 1], BP(n - 1));
      EvenSum(Low(s, n - 1), s[n - 1] * BP(n - 1));
    }
  }

  lemma Parity(a: MpInt)
    requires a.Valid()
    ensures IsZero(a) <==> a.Int() == 0
    ensures IsOdd(a) <==> a.Int() % 2 == 1
    ensures IsEven(a) <==> a.Int() % 2 == 0 && a.Int() != 0
    ensures a.used > 0 ==> a.dp[0] % 2 == a.Int() % 2 == a.Mag() % 2
  {
    hide Low, BP;
    MagBounds(a);
    if a.used > 0 {
      UsedValue(a, a.used);
      LowParity(a.dp, a.used);
      SignedParity(a.sign, a.Mag());
    }
  }

  lemma SignedParity(s: Sign, m: int)
    ensures Signed(s, m) % 2 == m % 2
  {}

  /** mp_cmp_d */
  method CmpD(a: MpInt, b: nat) returns (r: Order)
    requires a.Valid() && IsDigit(b)
    ensures r == Compare(a.Int(), b)
  {
    MagBounds(a);
    if a.sign == Neg { return Lt; }
    if a.used > 1 {
      BPMono(1, a.used - 1);
      BPOne();
      return Gt;
    }
    UsedValue(a, 1);
    assert Low(a.dp, 1) == Low(a.dp, 0) + At(a.dp, 0) * BP(0);
    r := if a.dp[0] > b then Gt else if a.dp[0] < b then Lt else Eq;
  }

  /** mp_sub_d: a - b.  A negative a is made positive for the time being. */
  method SubD(a: MpInt, b: nat, c: MpInt)
    requires a.Valid() && IsDigit(b) && c.Loose()
    modifies a`sign, c
    ensures c.Valid() && c.Int() == old(a.Int()) - b && |c.dp| >= old(|c.dp|)
    ensures a != c ==> a.sign == old(a.sign)
    decreases if a.sign == Neg then 1 else 0
  {
    hide Low, BP, Val;
    Room(a, c, a.used + 1);
    MagBounds(a);
    if a.sign == Neg {
      a.sign := ZPos;
      AddD(a, b, c);
      a.sign, c.sign := Neg, Neg;
      Clamp(c);
      MagBounds(c);
      return;
    }
    SmallMag(a, b);
    var oldused := c.used;
    if (a.used == 1 && a.dp[0] <= b) || a.used == 0 {
      OneDigit(c, if a.used == 1 then b - a.dp[0] else b, Neg, oldused);
    } else {
      SubDigit(a, b, c, a.Mag());
      Unsigned(c);
    }
  }

  /** mp_add_d: a + b; but in place, for a negative a above -b, the sign of a is lost before it is looked at. */
  method AddD(a: MpInt, b: nat, c: MpInt)
    requires a.Valid() && IsDigit(b) && c.Loose() && (a.used == 0 ==> |c.dp| > 1)
    modifies a`sign, c
    ensures c.Valid() && |c.dp| >= old(|c.dp|)
    ensures c.Int() == if a == c && old(a.Int()) < 0 < old(a.Int()) + b then b - old(a.Int()) else old(a.Int()) + b
    ensures c.Int() == old(a.Int()) + b <==> a != c || old(a.Int()) >= 0 || old(a.Int()) + b <= 0
    ensures a != c ==> a.sign == old(a.sign)
    decreases if a.sign == Neg then 1 else 0
  {
    hide Low, BP, Val;
    Room(a, c, a.used + 1);
    MagBounds(a);
    SmallMag(a, b);
    if a.sign == Neg && (a.used > 1 || a.dp[0] >= b) {
      a.sign := ZPos;
      SubD(a, b, c);
      a.sign, c.sign := Neg, Neg;
      Clamp(c);
      MagBounds(c);
      return;
    }
    var oldused := c.used;
    c.sign := ZPos;
    if a.sign == ZPos {
      AddDigit(a, b, c, a.Mag());
      Unsigned(c);
    } else {
      OneDigit(c, if a.used == 1 then b - a.dp[0] else b, ZPos, oldused);
    }
  }

  /** -1 and 3, added in place, make 4. */
  method SignLost() returns (a: MpInt)
    ensures fresh(a) && a.Valid() && a.Int() == 4
  {
    SmallDigits();
    hide *;
    a := new MpInt();
    ValidIsLoose(a);
    SubD(a, 1, a);
    ValidIsLoose(a);
    MagBounds(a);
    AddD(a, 3, a);
  }

  lemma SmallDigits()
    ensures IsDigit(1) && IsDigit(3)
  {}

  /** mp_grow of the destination leaves the operand as it is. */
  method Room(a: MpInt, c: MpInt, size: nat)
    requires a.Valid() && c.Loose()
    modifies c`dp
    ensures a.Valid() && a.Mag() == old(a.Mag()) && c.Loose() && size <= |c.dp| && |c.dp| >= old(|c.dp|)
  {
    ghost var top := if a.used > 0 then At(a.dp, a.used - 1) else 1;
    Grow(c, size);
    assert a.used > 0 ==> At(a.dp, a.used - 1) == top;
  }

  /** A number against a digit, by the first digit where it is the only one. */
  lemma SmallMag(a: MpInt, b: int)
    requires a.Ok() && IsDigit(b)
    ensures a.used > 1 ==> a.Mag() > b
    ensures a.used <= 1 ==> a.Mag() == a.dp[0]
  {
    MagBounds(a);
    if a.used > 1 {
      BPMono(1, a.used - 1);
      BPOne();
    } else {
      UsedValue(a, 1);
      LowOne(a.dp);
    }
  }

  /** The result is a single digit. */
  method OneDigit(c: MpInt, d: int, sign: Sign, oldused: nat)
    requires c.Loose() && IsDigit(d) && oldused == c.used
    modifies c
    ensures c.Valid() && c.Int() == Signed(sign, d) && |c.dp| == old(|c.dp|)
  {
    c.dp := c.dp[0 := d];
    LowOne(c.dp);
    ClearAbove(c, 1, oldused);
    c.used := 1;
    c.sign := sign;
    Clamp(c);
    MagBounds(c);
  }

  /** The digits of |a| + b. */
  method AddDigit(a: MpInt, b: nat, c: MpInt, ghost A: int)
    requires a.Ok() && IsDigit(b) && c.Loose() && a.used < |c.dp| && 1 < |c.dp| && a.Mag() == A && c.sign == ZPos
    modifies c
    ensures c.Ok() && c.sign == ZPos && c.Mag() == A + b && |c.dp| == old(|c.dp|)
  {
    hide Written, Low, BP, Val;
    ghost var X, C := a.dp, c.dp;
    var m := if a.used == 0 then 1 else a.used;
    UsedValue(a, m);
    SmallMag(a, b);
    var n, oldused := a.used, c.used;
    var t := a.dp[0] + b;
    CarryBit(t);
    FirstSum(c.dp, X, b, t);
    c.dp := c.dp[0 := t % B];
    AddHigh(a, c, 1, m, t / B, b, X, C);
    if n == 0 { NoSecond(c.dp, b, m + 1); }
    c.used := n + 1;
    ClearAbove(c, m + 1, oldused);
    Clamp(c);
  }

  lemma LowOne(s: seq<int>)
    ensures Low(s, 1) == At(s, 0)
  {
    assert Low(s, 1) == Low(s, 0) + At(s, 0) * BP(0);
  }

  /** The digits of |a| - b, for a larger a. */
  method SubDigit(a: MpInt, b: nat, c: MpInt, ghost A: int)
    requires a.Ok() && IsDigit(b) && c.Loose() && a.used < |c.dp| && a.Mag() == A
    requires a.used > 1 || (a.used == 1 && a.dp[0] > b)
    modifies c
    ensures c.Ok() && c.sign == ZPos && c.Mag() == A - b && |c.dp| == old(|c.dp|)
  {
    hide Written, Low, BP, Val;
    ghost var X, C := a.dp, c.dp;
    UsedValue(a, a.used);
    SmallMag(a, b);
    var n, oldused := a.used, c.used;
    c.sign := ZPos;
    WrittenNone(c.dp);
    LowNone(X);
    var t := a.dp[0] - b;
    BorrowBit(t);
    FirstColumn(c.dp, X, b, t);
    c.dp := c.dp[0 := t % B];
    SubHigh(a, c, 1, n, if t < 0 then 1 else 0, b, X, C);
    c.used := n;
    ClearAbove(c, n, oldused);
    Clamp(c);
    MagBounds(c);
  }

  lemma FirstColumn(s: seq<int>, X: seq<int>, b: int, t: int)
    requires DigitsOk(s) && |s| > 0 && |X| > 0 && t == X[0] - b && IsDigit(b) && IsDigit(X[0])
    ensures Written(s[0 := t % B], s, 1, -(if t < 0 then 1 else 0), Low(X, 1) - b)
  {
    BorrowBit(t);
    WriteColumn(s, s, 0, 0, 0, t);
    LowOne(X);
    BPNone();
  }

  lemma NoSecond(s: seq<int>, b: int, n: nat)
    requires DigitsOk(s) && |s| > 1 && n == 2 && Low(s, n) == b && IsDigit(b)
    ensures s[1] == 0
  {
    LowNext(s, 1);
    LowBound(s, 1);
    BPOne();
    hide Low, BP;
    if s[1] >= 1 { MulMono(1, s[1], B); }
  }

  lemma FirstSum(s: seq<int>, X: seq<int>, b: int, t: int)
    requires DigitsOk(s) && |s| > 0 && |X| > 0 && t == X[0] + b && IsDigit(b) && IsDigit(X[0])
    ensures Written(s[0 := t % B], s, 1, t / B, Low(X, 1) + b)
  {
    WriteColumn(s, s, 0, 0, 0, t);
    LowOne(X);
    BPNone();
  }

  /** How often two divides n. */
  function Twos(n: int): nat
    requires n > 0
    decreases n
  {
    if n % 2 == 1 then 0 else Twos(n / 2) + 1
  }

  function OddPart(n: int): int
    requires n > 0
    decreases n
  {
    if n % 2 == 1 then n else OddPart(n / 2)
  }

  lemma {:induction false} OddPartMeans(n: int)
    requires n > 0
    ensures n == OddPart(n) * Pow(2, Twos(n)) && OddPart(n) % 2 == 1 && OddPart(n) > 0
    decreases n
  {
    if n % 2 == 1 {
      assert Pow(2, 0) == 1;
    } else {
      OddPartMeans(n / 2);
      assert OddPart(n) * (2 * Pow(2, Twos(n / 2))) == 2 * (OddPart(n) * Pow(2, Twos(n / 2)));
    }
  }

  /** The factor two comes out one power at a time. */
  lemma {:induction false} TwosOfProduct(m: int, k: nat)
    requires m > 0
    ensures m * Pow(2, k) > 0 && Twos(m * Pow(2, k)) == Twos(m) + k && OddPart(m * Pow(2, k)) == OddPart(m)
    decreases k
  {
    if k == 0 {
      assert Pow(2, 0) == 1;
    } else {
      TwosOfProduct(m, k - 1);
      var w, p := Pow(2, k), Pow(2, k - 1);
      assert w == 2 * p;
      hide *;
      TwiceProduct(m, p);
      TwosDouble(m * p);
    }
  }

  lemma TwiceProduct(m: int, p: int)
    ensures m * (2 * p) == 2 * (m * p)
  {}

  lemma TwosDouble(p: int)
    requires p > 0
    ensures Twos(2 * p) == Twos(p) + 1 && OddPart(2 * p) == OddPart(p)
  {
    DivModUnique(2 * p, 2, p, 0);
  }

  /** Trailing zeros of a nibble, as the table `lnz` has them. */
  function NibbleZeros(qq: int): nat
    requires 0 <= qq < 16
  {
    if qq == 0 then 4 else if qq % 2 == 1 then 0 else if qq % 4 == 2 then 1 else if qq % 8 == 4 then 2 else 3
  }

  lemma TwosStep(q: int)
    requires q > 0
    ensures q % 2 == 1 ==> Twos(q) == 0
    ensures q % 2 == 0 ==> q / 2 > 0 && Twos(q) == 1 + Twos(q / 2)
  {}

  lemma Halves(q: int)
    requires q > 0
    ensures q % 16 == q % 2 + 2 * (q / 2 % 2) + 4 * (q / 2 / 2 % 2) + 8 * (q / 2 / 2 / 2 % 2) && q / 16 == q / 2 / 2 / 2 / 2
  {}

  lemma NibbleMeans(q: int)
    requires q > 0
    ensures q % 16 != 0 ==> Twos(q) == NibbleZeros(q % 16)
    ensures q % 16 == 0 ==> q / 16 > 0 && Twos(q) == 4 + Twos(q / 16)
  {
    hide Twos;
    Halves(q);
    TwosStep(q);
    if q % 2 == 0 {
      var h := q / 2;
      TwosStep(h);
      if h % 2 == 0 {
        var f := h / 2;
        TwosStep(f);
        if f % 2 == 0 { TwosStep(f / 2); }
      }
    }
  }

  /** The trailing zeros of a digit, a nibble at a time. */
  method DigitZeros(d: nat) returns (x: nat)
    requires d > 0
    ensures x == Twos(d)
  {
    x := 0;
    var q := d;
    if q % 2 == 0 {
      var qq := 0;
      var more := true;
      while more
        invariant more ==> q > 0 && x + Twos(q) == Twos(d)
        invariant !more ==> x == Twos(d)
        decreases more, q
      {
        NibbleMeans(q);
        qq := q % 16;
        x := x + NibbleZeros(qq);
        q := q / 16;
        more := qq == 0;
      }
    }
  }

  /** mp_cnt_lsb */
  method CntLsb(a: MpInt) returns (x: nat)
    requires a.Ok()
    ensures a.used == 0 ==> x == 0
    ensures a.used > 0 ==> a.Mag() > 0 && x == Twos(a.Mag())
  {
    if a.used == 0 { return 0; }
    var i := 0;
    while i < a.used && a.dp[i] == 0
      invariant i <= a.used && forall k: nat :: k < i ==> a.dp[k] == 0
      invariant i < a.used
    {
      i := i + 1;
    }
    MagBounds(a);
    BPPositive(a.used - 1);
    TrailingDigits(a, i);
    x := DigitZeros(a.dp[i]);
    x := i * DIGIT_BIT + x;
  }

  /** Zero digits below digit i, and the parity of what is above it. */
  lemma TrailingDigits(a: MpInt, i: nat)
    requires a.Ok() && i < a.used && a.dp[i] != 0 && forall k: nat :: k < i ==> a.dp[k] == 0
    ensures a.dp[i] > 0 && a.Mag() > 0 && Twos(a.Mag()) == i * DIGIT_BIT + Twos(a.dp[i])
  {
    hide Low, BP, Pow, Twos;
    UsedValue(a, a.used);
    var d := a.dp[i];
    var h := HighPart(a.dp, i, a.used);
    TwosOfSum(d, h);
    RadixPower(i);
    TwosOfProduct(d + B * h, i * DIGIT_BIT);
  }

  /** Above zero digits, the value is a shifted digit and a multiple of the radix. */
  lemma {:induction false} HighPart(s: seq<int>, i: nat, n: nat) returns (h: int)
    requires DigitsOk(s) && i < n <= |s| && forall k: nat :: k < i ==> s[k] == 0
    ensures h >= 0 && Low(s, n) == (s[i] + B * h) * BP(i)
    decreases n
  {
    LowNext(s, n - 1);
    if n == i + 1 {
      h := 0;
      LowZeros(s, 0, i);
      LowNone(s);
      hide Low, BP;
    } else {
      hide Low, BP;
      var g := HighPart(s, i, n - 1);
      var p := BP(n - 2 - i);
      BPPositive(n - 2 - i);
      BPStep(n - 2);
      BPAdd(n - 2 - i, i);
      MulNonNegative(s[n - 1], p);
      h := g + s[n - 1] * p;
      HighStep(s[i], g, s[n - 1], p, BP(i), B);
    }
  }

  lemma HighStep(d: int, g: int, u: int, p: int, w: int, b: int)
    ensures (d + b * (g + u * p)) * w == (d + b * g) * w + u * (b * (p * w))
  {
    var v, q := u * p, p * w;
    MulDist(g, v, b);
    MulDist(d + b * g, b * v, w);
    MulAssoc(b, v, w);
    MulAssoc(u, p, w);
    MulAssoc(b, u, q);
    MulAssoc(u, b, q);
  }

  /** A nonzero digit decides the trailing zeros. */
  lemma TwosOfSum(d: int, h: int)
    requires 0 < d < B && h >= 0
    ensures d + B * h > 0 && Twos(d + B * h) == Twos(d)
  {
    OddPartMeans(d);
    var e, m := Twos(d), OddPart(d);
    hide Twos, OddPart;
    ExponentBound(d, m, e);
    PowAdd(2, DIGIT_BIT - e, e);
    var k: nat := DIGIT_BIT - e - 1;
    assert Pow(2, k + 1) == 2 * Pow(2, k);
    hide Pow;
    SumFactors(m, h, Pow(2, k), Pow(2, e));
    TwosOfProduct(m + h * (2 * Pow(2, k)), e);
  }

  /** A digit has fewer trailing zeros than bits. */
  lemma ExponentBound(d: int, m: int, e: nat)
    requires 0 < d < B && m > 0 && d == m * Pow(2, e)
    ensures e < DIGIT_BIT
  {
    PowPositive(2, e);
    if e >= DIGIT_BIT {
      PowMono(2, DIGIT_BIT, e);
      MulMono(1, m, Pow(2, e));
    }
  }

  /** (m + 2hu)p with m odd. */
  lemma SumFactors(m: int, h: int, u: int, p: int)
    requires m % 2 == 1 && m > 0 && h >= 0 && u > 0
    ensures m + h * (2 * u) > 0 && (m + h * (2 * u)) % 2 == 1
    ensures (m + h * (2 * u)) * p == m * p + (2 * u) * p * h
  {
    var t := 2 * u;
    MulAssoc(h, u, 2);
    assert h * t == (h * u) * 2;
    TwiceEven(h * u);
    EvenSum(m, h * t);
    MulNonNegative(h, u);
    MulDist(m, h * t, p);
    MulAssoc(h, t, p);
  }

  /** mp_div_2: |b| is half |a|, rounded towards zero. */
  method Div2(a: MpInt, b: MpInt)
    requires a.Valid() && b.Loose()
    modifies b
    ensures b.Valid() && b.Mag() == old(a.Mag()) / 2
    ensures b.used == 0 || b.sign == old(a.sign)
    ensures old(a.Int()) % 2 == 0 ==> old(a.Int()) == 2 * b.Int()
    ensures |b.dp| >= old(|b.dp|)
  {
    hide Low, BP, Val, Shifting, High;
    ghost var m, s := a.Mag(), a.sign;
    MagBounds(a);
    Grow(b, a.used);
    UsedValue(a, a.used);
    var n, oldused := a.used, b.used;
    HalveDigits(a, b, n);
    ClearAbove(b, n, oldused);
    b.sign := a.sign;
    b.used := n;
    Clamp(b);
    HalfSigned(b, s, m);
  }

  method HalveDigits(a: MpInt, b: MpInt, n: nat)
    requires DigitsOk(a.dp) && DigitsOk(b.dp) && n <= |a.dp| && n <= |b.dp|
    modifies b`dp
    ensures DigitsOk(b.dp) && Low(b.dp, n) == old(Low(a.dp, n)) / 2 && Tail(b.dp, old(b.dp), n)
  {
    hide Low, BP, Val, Shifting, High;
    ghost var X, C := a.dp, b.dp;
    HalfRadix();
    var r: int, x := 0, n;
    ShiftingStart(C, X, n, 2);
    while x > 0
      invariant 0 <= x <= n && 0 <= r < 2 && |b.dp| == |C| && |a.dp| == |X|
      invariant Shifting(b.dp, C, X, x, n, 2, r) && (forall k: nat :: k < x ==> a.dp[k] == X[k])
    {
      x := x - 1;
      var rr := a.dp[x] % 2;
      ShiftDownDigit(b.dp, C, X, x + 1, n, 2, B / 2, r);
      b.dp := b.dp[x := a.dp[x] / 2 + r * (B / 2)];
      r := rr;
    }
    ShiftingEnd(b.dp, C, X, n, 2, r);
  }

  lemma HalfSigned(a: MpInt, s: Sign, m: int)
    requires a.Ok() && a.Mag() == m / 2 && m >= 0 && a.sign == (if a.used == 0 then ZPos else s)
    ensures a.Valid() && (Signed(s, m) % 2 == 0 ==> Signed(s, m) == 2 * a.Int())
  {
    MagBounds(a);
  }
}
