/** Greatest common divisors, by their common divisors. */
module GcdSpec {
  import opened Arith
  import opened Primes

  /** g has exactly the common divisors of a and b; for a == b == 0 that is zero. */
  ghost predicate IsGcd(g: int, a: int, b: int) {
    g >= 0 && forall d: int :: d > 0 ==> (Divides(d, g) <==> Divides(d, a) && Divides(d, b))
  }

  lemma DividesZero(d: int)
    requires d > 0
    ensures Divides(d, 0)
  {}

  lemma DividesSmaller(d: int, n: int)
    requires d > 0 && n > 0 && Divides(d, n)
    ensures d <= n
  {
    var k := DividesElim(d, n);
    if k <= 0 { MulMono(k, 0, d); } else { MulMono(1, k, d); }
  }

  /** There is only one. */
  lemma GcdUnique(g: int, h: int, a: int, b: int)
    requires IsGcd(g, a, b) && IsGcd(h, a, b)
    ensures g == h
  {
    forall d: int | d > 0 ensures Divides(d, g) <==> Divides(d, h) {}
    if g > 0 { SelfDivides(g); }
    if h > 0 { SelfDivides(h); }
    if g == 0 && h > 0 { NoLarger(h); DividesZero(h + 1); }
    if h == 0 && g > 0 { NoLarger(g); DividesZero(g + 1); }
    if g > 0 && h > 0 {
      DividesSmaller(g, h);
      DividesSmaller(h, g);
    }
  }

  lemma SelfDivides(g: int)
    requires g > 0
    ensures Divides(g, g)
  {
    DividesIntro(g, g, 1);
  }

  lemma NoLarger(g: int)
    requires g > 0
    ensures !Divides(g + 1, g)
  {
    DivModUnique(g, g + 1, 0, g);
  }

  lemma GcdWithZero(a: int)
    ensures IsGcd(if a < 0 then -a else a, a, 0) && IsGcd(if a < 0 then -a else a, 0, a)
  {
    forall d: int | d > 0 ensures Divides(d, 0) && (Divides(d, -a) <==> Divides(d, a)) {
      DividesZero(d);
      DividesNegated(d, a);
    }
  }

  lemma DividesNegated(d: int, a: int)
    requires d > 0
    ensures Divides(d, -a) <==> Divides(d, a)
  {
    if Divides(d, a) { var k := DividesElim(d, a); DividesIntro(d, -a, -k); }
    if Divides(d, -a) { var k := DividesElim(d, -a); DividesIntro(d, a, -k); }
  }

  /** Adding a multiple of one number to the other changes nothing. */
  lemma GcdShift(g: int, a: int, b: int, q: int)
    ensures IsGcd(g, a, b) <==> IsGcd(g, a, b - q * a)
    ensures IsGcd(g, a, b) <==> IsGcd(g, b, a)
  {
    forall d: int | d > 0 && Divides(d, a) ensures Divides(d, b) <==> Divides(d, b - q * a) {
      var k := DividesElim(d, a);
      MulAssoc(q, k, d);
      if Divides(d, b) {
        var l := DividesElim(d, b);
        MulDist(l, q * k, d);
        DividesIntro(d, b - q * a, l - q * k);
      }
      if Divides(d, b - q * a) {
        var l := DividesElim(d, b - q * a);
        MulDist(l, q * k, d);
        DividesIntro(d, b, l + q * k);
      }
    }
  }

  /** An odd number shares no factor two. */
  lemma DividesHalf(d: int, u: int, v: int)
    requires d > 0 && u % 2 == 1 && Divides(d, u)
    ensures Divides(d, 2 * v) <==> Divides(d, v)
  {
    var k := DividesElim(d, u);
    OddFactor(k, d);
    OddDivides(d, v);
  }

  lemma OddFactor(k: int, d: int)
    requires k * d % 2 == 1
    ensures d % 2 == 1
  {
    EvenMultiple(k, d);
  }

  lemma EvenMultiple(k: int, d: int)
    ensures d % 2 == 0 ==> k * d % 2 == 0
  {
    if d % 2 == 0 {
      var e := d / 2;
      assert k * d == 2 * (k * e) by { MulAssoc(k, 2, e); }
    }
  }

  lemma OddDivides(d: int, v: int)
    requires d > 0 && d % 2 == 1
    ensures Divides(d, 2 * v) <==> Divides(d, v)
  {
    if Divides(d, v) {
      var k := DividesElim(d, v);
      MulAssoc(2, k, d);
      DividesIntro(d, 2 * v, 2 * k);
    }
    if Divides(d, 2 * v) {
      var k := DividesElim(d, 2 * v);
      Congruences.HalfOfMultiple(v, k, d);
      DividesIntro(d, v, k / 2);
    }
  }

  lemma {:induction false} GcdOddPower(g: int, u: int, v: int, k: nat)
    requires u % 2 == 1
    ensures IsGcd(g, u, v * Pow(2, k)) <==> IsGcd(g, u, v)
    decreases k
  {
    if k > 0 {
      GcdOddPower(g, u, v, k - 1);
      var w := v * Pow(2, k - 1);
      assert v * (2 * Pow(2, k - 1)) == 2 * w;
      forall d: int | d > 0 && Divides(d, u) ensures Divides(d, 2 * w) <==> Divides(d, w) {
        DividesHalf(d, u, w);
      }
    }
  }

  /** A common factor two comes out. */
  lemma GcdDouble(g: int, a: int, b: int)
    requires IsGcd(g, a, b)
    ensures IsGcd(2 * g, 2 * a, 2 * b)
  {
    forall d: int | d > 0 ensures Divides(d, 2 * g) <==> Divides(d, 2 * a) && Divides(d, 2 * b) {
      if d % 2 == 1 {
        OddDivides(d, g);
        OddDivides(d, a);
        OddDivides(d, b);
      } else {
        var e := d / 2;
        EvenDivides(e, g);
        EvenDivides(e, a);
        EvenDivides(e, b);
        assert d == 2 * e;
      }
    }
  }

  lemma EvenDivides(e: int, v: int)
    requires e > 0
    ensures Divides(2 * e, 2 * v) <==> Divides(e, v)
  {
    if Divides(e, v) {
      var k := DividesElim(e, v);
      DividesIntro(2 * e, 2 * v, k);
    }
    if Divides(2 * e, 2 * v) {
      var k := DividesElim(2 * e, 2 * v);
      assert k * (2 * e) == 2 * (k * e);
      DividesIntro(e, v, k);
    }
  }

  lemma {:induction false} GcdScale(g: int, a: int, b: int, k: nat)
    requires IsGcd(g, a, b)
    ensures IsGcd(g * Pow(2, k), a * Pow(2, k), b * Pow(2, k))
    decreases k
  {
    if k == 0 {
      assert Pow(2, 0) == 1;
    } else {
      GcdScale(g, a, b, k - 1);
      var p := Pow(2, k - 1);
      GcdDouble(g * p, a * p, b * p);
      assert g * (2 * p) == 2 * (g * p) && a * (2 * p) == 2 * (a * p) && b * (2 * p) == 2 * (b * p);
    }
  }

  lemma GcdOfMagnitudes(g: int, a: int, b: int)
    ensures IsGcd(g, if a < 0 then -a else a, if b < 0 then -b else b) <==> IsGcd(g, a, b)
  {
    forall d: int | d > 0 ensures (Divides(d, -a) <==> Divides(d, a)) && (Divides(d, -b) <==> Divides(d, b)) {
      DividesNegated(d, a);
      DividesNegated(d, b);
    }
  }
}
