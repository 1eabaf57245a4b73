/** mp_n_root: integer roots by Newton's iteration (bn_mp_n_root.c, bn_mp_expt_d.c). */
module NRoot {
  import opened Arith
  import opened Digits
  import opened MpInts
  import opened MpAdd
  import opened MpShift
  import opened MpSmall
  import opened MpDiv
  import opened Mul
  import opened ExptArith

  /** One bit of the exponent. */
  lemma ExponentBit(x: int, e: nat, y: nat)
    requires y <= 1
    ensures Pow(x, 2 * e + y) == Pow(x, e) * Pow(x, e) * (if y == 1 then x else 1)
  {
    PowAdd(x, e, e);
    assert e + e == 2 * e;
    assert y == 1 ==> Pow(x, 2 * e + 1) == x * Pow(x, 2 * e);
  }

  /** mp_expt_d: c = a^b, b read as DIGIT_BIT bits. */
  method ExptD(a: MpInt, b: nat, c: MpInt)
    requires a.Valid() && c.Valid()
    modifies c
    ensures c.Valid() && c.Int() == Pow(old(a.Int()), b % B)
  {
    hide *;
    ghost var g0 := a.Int();
    var g := new MpInt.Copied(a);
    ValidIsLoose(c);
    SetOne(c);
    var buf, x := b, 0;
    ghost var e: nat := 0;
    ExponentStart(g0, b);
    while x < DIGIT_BIT
      invariant x <= DIGIT_BIT && buf == b * Pow(2, x) && e == b % B / Pow(2, DIGIT_BIT - x)
      invariant g.Valid() && g.Int() == g0 && c.Valid() && c.Int() == Pow(g0, e)
      modifies c
    {
      ghost var y := TopExponentBit(b, x, buf, e);
      ExponentBit(g0, e, y);
      MulOne(Pow(g0, e) * Pow(g0, e));
      ValidIsLoose(c);
      Square(c, c);
      ValidIsLoose(c);
      if buf / Pow(2, DIGIT_BIT - 1) % 2 != 0 {
        Multiply(c, g, c);
      }
      e := 2 * e + y;
      buf := buf * 2;
      x := x + 1;
    }
    ExponentEnd(b);
  }

  lemma MulOne(x: int)
    ensures x * 1 == x
  {}

  method SetOne(c: MpInt)
    requires c.Loose()
    modifies c
    ensures c.Valid() && c.Int() == 1
  {
    Set(c, 1);
  }

  lemma ExponentStart(g: int, b: nat)
    ensures Pow(g, 0) == 1 && b == b * Pow(2, 0) && 0 == b % B / Pow(2, DIGIT_BIT - 0)
  {
    DivModDef(b, B);
    DivModUnique(b % B, B, 0, b % B);
  }

  lemma ExponentEnd(b: nat)
    ensures b % B / Pow(2, DIGIT_BIT - DIGIT_BIT) == b % B
  {
    assert Pow(2, 0) == 1;
  }

  lemma TopExponentBit(b: nat, x: nat, buf: nat, e: nat) returns (y: nat)
    requires x < DIGIT_BIT && buf == b * Pow(2, x) && e == b % B / Pow(2, DIGIT_BIT - x)
    ensures y <= 1 && (buf / Pow(2, DIGIT_BIT - 1) % 2 != 0 <==> y == 1)
    ensures 2 * e + y == b % B / Pow(2, DIGIT_BIT - (x + 1)) && buf * 2 == b * Pow(2, x + 1)
  {
    var bl := DIGIT_BIT - x;
    var p := Pow(2, bl - 1);
    TopBit(b, bl, buf);
    assert DIGIT_BIT - bl == x;
    y := b / p % 2;
    DivModDef(b, B);
    var d := b % B;
    PowAdd(2, bl - 1, DIGIT_BIT - bl + 1);
    BitOfLow(b / B, d, p, Pow(2, DIGIT_BIT - bl));
    DropLast(d, p);
  }

  /** Bits below DIGIT_BIT do not depend on what is above. */
  lemma BitOfLow(h: int, d: int, p: int, s: int)
    requires p > 0 && s > 0 && B == p * (2 * s) && d >= 0
    ensures (h * B + d) / p % 2 == d / p % 2
  {
    DivModDef(d, p);
    var q, r := d / p, d % p;
    assert h * (p * (2 * s)) == (2 * (h * s)) * p by {
      assert p * (2 * s) == 2 * s * p;
      MulAssoc(h, 2 * s, p);
      assert h * (2 * s) == 2 * (h * s);
    }
    MulDist(2 * (h * s), q, p);
    DivModUnique(h * B + d, p, 2 * (h * s) + q, r);
    DivModDef(q, 2);
    DivModUnique(2 * (h * s) + q, 2, h * s + q / 2, q % 2);
  }

  lemma DropLast(d: int, p: int)
    requires p > 0 && d >= 0
    ensures d / p == 2 * (d / (2 * p)) + d / p % 2
  {
    var q, r := d / p, d % p;
    DivModDef(d, p);
    DivModDef(q, 2);
    MulDist(2 * (q / 2), q % 2, p);
    MulAssoc(q / 2, 2, p);
    assert q % 2 * p == if q % 2 == 1 then p else 0;
    DivModUnique(d, 2 * p, q / 2, q % 2 * p + r);
  }

  /** Bernoulli upwards: the tangent lies below the power. */
  lemma {:induction false} TangentAbove(t: int, b: nat)
    requires t >= 0 && b >= 1
    ensures Pow(t + 1, b) >= Pow(t, b) + b * Pow(t, b - 1)
    decreases b
  {
    if b == 1 {
      assert Pow(t + 1, 1) == (t + 1) * Pow(t + 1, 0);
      assert Pow(t, 1) == t * Pow(t, 0);
    } else {
      TangentAbove(t, b - 1);
      var u, v, w := Pow(t, b - 1), Pow(t, b - 2), Pow(t + 1, b - 1);
      assert Pow(t + 1, b) == (t + 1) * w && Pow(t, b) == t * u && u == t * v;
      PowNatural(t, b - 2);
      hide *;
      MulMono(u + (b - 1) * v, w, t + 1);
      TangentUp(t, b, u, v);
    }
  }

  lemma TangentUp(t: int, b: int, u: int, v: int)
    requires u == t * v && v >= 0 && b >= 1
    ensures (u + (b - 1) * v) * (t + 1) >= t * u + b * u
  {
    var m := (b - 1) * v;
    assert (u + m) * (t + 1) == t * u + m * t + u + m by { MulDist(u, m, t + 1); }
    assert m * t == (b - 1) * u by { MulAssoc(b - 1, v, t); }
    MulNonNegative(b - 1, v);
    MulDist(b - 1, 1, u);
  }

  lemma {:induction false} PowNatural(t: int, n: nat)
    requires t >= 0
    ensures Pow(t, n) >= 0 && (t > 0 ==> Pow(t, n) > 0)
  {
    if n > 0 { PowNatural(t, n - 1); MulNonNegative(t, Pow(t, n - 1)); }
  }

  /** Bernoulli downwards. */
  lemma {:induction false} TangentBelow(t: int, q: int, b: nat)
    requires 0 <= q <= t && b >= 1
    ensures Pow(t - q, b) >= Pow(t, b) - q * (b * Pow(t, b - 1))
    decreases b
  {
    if b == 1 {
      assert Pow(t - q, 1) == (t - q) * Pow(t - q, 0);
      assert Pow(t, 1) == t * Pow(t, 0);
    } else {
      TangentBelow(t, q, b - 1);
      var u, v := Pow(t, b - 1), Pow(t, b - 2);
      PowNatural(t, b - 2);
      MulMono(u - q * ((b - 1) * v), Pow(t - q, b - 1), t - q);
      TangentStep(t, q, b, u, v);
    }
  }

  lemma TangentStep(t: int, q: int, b: int, u: int, v: int)
    requires u == t * v && v >= 0 && b >= 1
    ensures (u - q * ((b - 1) * v)) * (t - q) >= t * u - q * (b * u)
  {
    var m := (b - 1) * v;
    assert (u - q * m) * (t - q) == t * u - q * u - q * (m * t) + (q * q) * m;
    assert m * t == (b - 1) * u by { MulAssoc(b - 1, v, t); }
    MulNonNegative(b - 1, v);
    MulNonNegative(q * q, m);
    assert q * ((b - 1) * u) == q * (b * u) - q * u by { MulDist(b, 1, u); }
  }

  /** Powers grow. */
  lemma {:induction false} PowGrows(s: int, t: int, b: nat)
    requires 0 <= s < t && b >= 1
    ensures Pow(s, b) < Pow(t, b)
    decreases b
  {
    PowNatural(s, b - 1);
    PowNatural(t, b - 1);
    if b > 1 { PowGrows(s, t, b - 1); }
    MulMono(Pow(s, b - 1), Pow(t, b - 1), s);
    MulMonoStrict(s, t, Pow(t, b - 1));
  }

  /** One Newton step from t, for the root of a. */
  function Newton(t: int, a: int, b: nat): int
    requires b >= 1 && b * Pow(t, b - 1) != 0
  {
    t - Quot(Pow(t, b) - a, b * Pow(t, b - 1))
  }

  /** The iterates stay where the slope is positive. */
  ghost predicate Sound(t: int, b: nat) { t >= 0 && b >= 1 && (b == 1 || t >= 1) }

  lemma Slope(t: int, b: nat)
    requires Sound(t, b)
    ensures b * Pow(t, b - 1) > 0
  {
    if b == 1 { assert Pow(t, 0) == 1; } else { PowNatural(t, b - 1); MulPositive(b, Pow(t, b - 1)); }
  }

  /** Below the root a step goes up, or stops within the tangent's reach of the root. */
  lemma StepUp(t: int, a: int, b: nat)
    requires Sound(t, b) && Pow(t, b) < a
    ensures b * Pow(t, b - 1) > 0
    ensures var n := Newton(t, a, b); Sound(n, b) && n >= t && (n == t ==> a < Pow(t + 1, b))
  {
    Slope(t, b);
    var D, f := b * Pow(t, b - 1), Pow(t, b) - a;
    QuotRem(f, D);
    var q, r := Quot(f, D), Rem(f, D);
    if q > 0 { MulMono(1, q, D); }
    if q == 0 { TangentAbove(t, b); }
  }

  /** At or above the root a step goes down, and never below it. */
  lemma StepDown(t: int, a: int, b: nat)
    requires Sound(t, b) && 0 <= a <= Pow(t, b)
    ensures b * Pow(t, b - 1) > 0
    ensures var n := Newton(t, a, b); Sound(n, b) && n <= t && a <= Pow(n, b)
  {
    Slope(t, b);
    PowNatural(t, b - 1);
    hide Quot, Rem;
    var u, w := Pow(t, b - 1), Pow(t, b);
    assert w == t * u;
    var D, f := b * u, w - a;
    QuotRem(f, D);
    var q := Quot(f, D);
    QuotientDown(q, Rem(f, D), f, b, u, t);
    TangentBelow(t, q, b);
  }

  lemma QuotientDown(q: int, r: int, f: int, b: int, u: int, t: int)
    requires b >= 1 && u >= 0 && b * u > 0 && 0 <= f <= t * u && IsDivision(f, b * u, q, r)
    ensures 0 <= q && q * (b * u) <= f && q <= t && (b >= 2 && t >= 1 ==> q < t)
  {
    assert r >= 0;
    if q < 0 { MulMono(q, -1, b * u); }
    assert u == 0 ==> b * u == 0;
    MulAssoc(q, b, u);
    MulCancel(q * b, t, u);
    MulMono(1, b, q);
    if b >= 2 { MulMono(2, b, q); }
  }

  /** t2 = t1 - (t1^b - a) / (b * t1^(b-1)) */
  method NewtonStep(t1: MpInt, t2: MpInt, t3: MpInt, a: MpInt, b: nat)
    requires t1.Valid() && t2.Valid() && t3.Valid() && a.Valid() && t1 !in {t2, t3} && a !in {t2, t3} && t2 != t3
    requires 1 <= b < B && Sound(t1.Int(), b)
    modifies t2, t3
    ensures b * Pow(t1.Int(), b - 1) > 0
    ensures t2.Valid() && t3.Valid() && t2.Int() == Newton(t1.Int(), a.Int(), b)
  {
    hide *;
    ghost var t := t1.Int();
    Slope(t, b);
    SmallExponent(b - 1);
    NewtonIs(t, a.Int(), b);
    ExptD(t1, b - 1, t3);
    Plain(t3);
    Plain(t2);
    PowIs(t, b);
    Multiply(t3, t1, t2);
    Plain(t2);
    Plain(a);
    Sub(t2, a, t2);
    SlopeSign(t, b, t3);
    DigitOfNat(b);
    MulD(t3, b, t3);
    Unsigned(t3);
    var err := Div(t2, t3, t3, null);
    Plain(t3);
    Plain(t2);
    Sub(t1, t3, t2);
  }

  lemma DigitOfNat(b: nat)
    requires b < B
    ensures IsDigit(b)
  {}

  lemma SmallExponent(e: nat)
    requires e < B
    ensures e % B == e
  {
    DivModUnique(e, B, 0, e);
  }

  lemma PowIs(t: int, b: nat)
    requires b >= 1
    ensures Pow(t, b - 1) * t == Pow(t, b)
  {}

  lemma SlopeSign(t: int, b: nat, t3: MpInt)
    requires Sound(t, b) && t3.Valid() && t3.Int() == Pow(t, b - 1)
    ensures t3.Loose() && t3.sign == ZPos && t3.Mag() == Pow(t, b - 1)
  {
    PowNatural(t, b - 1);
    MagBounds(t3);
  }

  lemma NewtonIs(t: int, a: int, b: nat)
    requires b >= 1 && b * Pow(t, b - 1) != 0
    ensures Newton(t, a, b) == t - Quot(Pow(t, b) - a, b * Pow(t, b - 1))
  {}

  /** The integer b-th root. */
  ghost predicate IsRoot(r: int, a: int, b: nat) { r >= 0 && Pow(r, b) <= a < Pow(r + 1, b) }

  lemma RootUnique(r: int, s: int, a: int, b: nat)
    requires b >= 1 && IsRoot(r, a, b) && IsRoot(s, a, b)
    ensures r == s
  {
    if r + 1 < s { PowGrows(r + 1, s, b); }
    if s + 1 < r { PowGrows(s + 1, r, b); }
  }

  lemma OnlyRoot(r: int, a: int, b: nat)
    requires b >= 1 && IsRoot(r, a, b)
    ensures forall s :: IsRoot(s, a, b) ==> s == r
  {
    hide IsRoot;
    forall s | IsRoot(s, a, b) ensures s == r { RootUnique(r, s, a, b); }
  }

  /** Distance to the end: first up to the root, then down towards it. */
  ghost predicate Below(t: int, a: int, b: nat) { t >= 0 && Pow(t, b) < a }

  ghost function Distance(t: int, a: int, b: nat): nat
    requires t >= 0
  {
    if Pow(t, b) < a then Abs(a - t) else Abs(t)
  }

  lemma StepMeasure(t: int, a: int, b: nat)
    requires Sound(t, b) && a >= 0
    ensures b * Pow(t, b - 1) > 0
    ensures var n := Newton(t, a, b);
      && Sound(n, b) && n >= 0
      && (n == t ==> a < Pow(t + 1, b))
      && (n != t ==> (Below(n, a, b) ==> Below(t, a, b)) && ((Below(n, a, b) <==> Below(t, a, b)) ==> Distance(n, a, b) < Distance(t, a, b)))
  {
    if Pow(t, b) < a {
      StepUp(t, a, b);
      hide Newton;
      var n := Newton(t, a, b);
      if Below(n, a, b) { PowAtLeast(n, b); }
      PowAtLeast(t, b);
    } else {
      StepDown(t, a, b);
      PowGrows(t, t + 1, b);
    }
  }

  lemma {:induction false} PowAtLeast(t: int, b: nat)
    requires t >= 0 && b >= 1
    ensures Pow(t, b) >= t
  {
    if b == 1 {
      assert Pow(t, 1) == t * Pow(t, 0);
    } else {
      PowAtLeast(t, b - 1);
      if t > 0 { MulMono(1, Pow(t, b - 1), t); }
    }
  }

  /** Newton's iteration, until it stops. */
  method Iterate(a: MpInt, b: nat) returns (t1: MpInt)
    requires a.Valid() && a.Int() >= 0 && 1 <= b < B
    ensures fresh(t1) && t1.Valid() && t1.Int() >= 0 && a.Int() < Pow(t1.Int() + 1, b)
  {
    hide *;
    t1 := new MpInt();
    var t2 := new MpInt();
    var t3 := new MpInt();
    SetTwo(t2);
    StartSound(b);
    ghost var A := a.Int();
    var again := true;
    while again
      invariant t1.Valid() && t2.Valid() && t3.Valid() && Sound(t2.Int(), b) && t2.Int() >= 0
      invariant !again ==> t1.Int() >= 0 && A < Pow(t1.Int() + 1, b)
      decreases again, Below(t2.Int(), A, b), Distance(t2.Int(), A, b)
      modifies t1, t2, t3
    {
      Plain(t1);
      Copy(t2, t1);
      StepMeasure(t1.Int(), A, b);
      NewtonStep(t1, t2, t3, a, b);
      var r := Cmp(t1, t2);
      OrderIs(t1.Int(), t2.Int());
      again := r != Eq;
    }
  }

  lemma OrderIs(x: int, y: int)
    ensures Compare(x, y) == Eq <==> x == y
    ensures Compare(x, y) == Gt <==> x > y
  {}

  lemma StartSound(b: nat)
    requires b >= 1
    ensures Sound(2, b)
  {}

  method SetTwo(c: MpInt)
    requires c.Valid()
    modifies c
    ensures c.Valid() && c.Int() == 2
  {
    SmallExponent(2);
    Set(c, 2);
  }

  /** Where Newton's iteration stops above the root, single steps lead down to it. */
  method Settle(t1: MpInt, a: MpInt, b: nat)
    requires t1.Valid() && a.Valid() && t1 != a && 1 <= b < B && a.Int() >= 0
    requires t1.Int() >= 0 && a.Int() < Pow(t1.Int() + 1, b)
    modifies t1
    ensures t1.Valid() && IsRoot(t1.Int(), a.Int(), b)
  {
    hide *;
    var t2 := new MpInt();
    SmallExponent(b);
    ghost var A := a.Int();
    var done := false;
    while !done
      invariant t1.Valid() && t2.Valid() && t1.Int() >= 0 && A < Pow(t1.Int() + 1, b)
      invariant done ==> Pow(t1.Int(), b) <= A
      decreases !done, t1.Int()
      modifies t1, t2
    {
      ExptD(t1, b, t2);
      var r := Cmp(t2, a);
      OrderIs(t2.Int(), A);
      if r == Gt {
        Plain(t1);
        ZeroIsBelow(t1.Int(), A, b);
        DigitOfNat(1);
        SubD(t1, 1, t1);
      } else {
        done := true;
      }
    }
    RootIntro(t1.Int(), A, b);
  }

  lemma ZeroIsBelow(t: int, a: int, b: nat)
    requires t >= 0 && a >= 0 && b >= 1 && Pow(t, b) > a
    ensures t > 0
  {
    assert Pow(0, b) == 0;
  }

  lemma RootIntro(r: int, a: int, b: nat)
    requires r >= 0 && Pow(r, b) <= a < Pow(r + 1, b)
    ensures IsRoot(r, a, b)
  {}

  /** mp_n_root.  The sign of `a` is put aside for the computation. */
  method Root(a: MpInt, b: nat, c: MpInt) returns (res: Status)
    requires a.Valid() && c.Valid() && 1 <= b < B
    modifies a`sign, c
    ensures res == if b % 2 == 0 && old(a.Int()) < 0 then BadValue else Okay
    ensures a != c ==> a.Int() == old(a.Int()) && a.Valid()
    ensures c.Valid()
    ensures res == Okay ==> exists r :: IsRoot(r, Abs(old(a.Int())), b)
    ensures res == Okay ==> forall r :: IsRoot(r, Abs(old(a.Int())), b) ==> c.Int() == if old(a.Int()) < 0 then -r else r
    ensures res != Okay && a != c ==> c.Int() == old(c.Int())
  {
    SignMeans(a);
    MagIsPlain(a);
    if b % 2 == 0 && a.sign == Neg { return BadValue; }
    var neg := a.sign;
    a.sign := ZPos;
    ghost var m := a.Mag();
    MagIsPlain(a);
    var t1 := Iterate(a, b);
    Settle(t1, a, b);
    a.sign := neg;
    MagIsPlain(t1);
    ghost var r := t1.Int();
    RootPositive(r, m, b);
    OnlyRoot(r, m, b);
    Exch(t1, c);
    c.sign := neg;
    return Okay;
  }

  lemma MagIsPlain(a: MpInt)
    requires a.Valid()
    ensures a.Mag() >= 0 && a.Mag() == Abs(a.Int()) && (a.used == 0 <==> a.Mag() == 0)
    ensures a.sign == ZPos ==> a.Int() == a.Mag()
  {
    MagBounds(a);
  }

  lemma RootPositive(r: int, a: int, b: nat)
    requires b >= 1 && IsRoot(r, a, b)
    ensures r == 0 ==> a == 0
  {
    OnePow(b);
  }

  lemma {:induction false} OnePow(b: nat)
    ensures Pow(1, b) == 1 && (b > 0 ==> Pow(0, b) == 0)
    decreases b
  {
    if b > 0 { OnePow(b - 1); }
  }
}
