/** Modular inverses by the binary extended algorithm (bn_fast_mp_invmod.c, bn_mp_invmod_slow.c, bn_mp_invmod.c). */
module InvMod {
  import opened Arith
  import opened Congruences
  import opened GcdSpec
  import opened MpInts
  import opened MpAdd
  import opened MpSmall
  import opened MpDiv
  import opened MpMod
  import opened Gcd

  /** Next to an odd number, factors of two do not matter. */
  lemma OddDivisors(u: int, v: int, x: int, y: int)
    requires u > 0 && v % 2 == 1
    ensures SameDivisors(u, v, x, y) ==> SameDivisors(OddPart(u), v, x, y)
    ensures SameDivisors(v, u, x, y) ==> SameDivisors(v, OddPart(u), x, y)
  {
    var w := OddPart(u);
    OddPartMeans(u);
    forall g ensures (IsGcd(g, u, v) <==> IsGcd(g, w, v)) && (IsGcd(g, v, u) <==> IsGcd(g, v, w)) {
      GcdOddPower(g, v, w, Twos(u));
      GcdShift(g, u, v, 0);
      GcdShift(g, w, v, 0);
    }
  }

  lemma OddIsOddPart(u: int)
    requires u > 0 && u % 2 == 1
    ensures OddPart(u) == u
  {}

  lemma PowOneIsTwo()
    ensures Pow(2, 1) == 2
  {
    assert Pow(2, 1) == 2 * Pow(2, 0);
  }

  /** Subtracting one from the other as well. */
  lemma DifferenceDivisors(u: int, v: int, x: int, y: int)
    requires SameDivisors(u, v, x, y)
    ensures SameDivisors(u - v, v, x, y) && SameDivisors(u, v - u, x, y)
  {
    forall g ensures (IsGcd(g, u, v) <==> IsGcd(g, u - v, v)) && (IsGcd(g, u, v) <==> IsGcd(g, u, v - u)) {
      GcdShift(g, u, v, 1);
      GcdShift(g, v, u, 1);
      GcdShift(g, v, u - v, 0);
      GcdShift(g, v, u, 0);
      GcdShift(g, u, v, 0);
    }
  }

  /** The same at the end, when one of them is zero. */
  lemma LastDivisors(v: int, x: int, y: int)
    requires v > 0 && SameDivisors(0, v, x, y)
    ensures IsGcd(v, x, y) && (v == 1 <==> IsGcd(1, x, y))
  {
    GcdWithZero(v);
    assert IsGcd(v, 0, v);
    if IsGcd(1, x, y) { GcdUnique(1, v, x, y); }
  }

  /** u == b * y modulo x, one row of the fast algorithm. */
  ghost predicate Track(b: int, y: int, u: int, x: int) { x > 0 && Cong(b * y, u, x) }

  /** Halving a row: an odd coefficient is first made even with the odd modulus. */
  lemma HalveTrack(b: int, y: int, u: int, x: int, b': int)
    requires Track(b, y, u, x) && x % 2 == 1 && u % 2 == 0 && b' == (if b % 2 == 1 then b - x else b)
    ensures b' % 2 == 0 && Track(b' / 2, y, u / 2, x)
  {
    var h := b' / 2;
    assert b' == 2 * h;
    var k := CongElim(b * y, u, x);
    if b % 2 == 1 {
      MulDist(b, x, y);
      assert x * y == y * x;
      MulDist(k, y, x);
      CongIntro(b' * y, u, x, k - y);
    }
    assert b' * y == h * y * 2 by { MulAssoc(2, h, y); }
    assert u == u / 2 * 2;
    PowOneIsTwo();
    CancelPow2(h * y, u / 2, 1, x);
  }

  lemma SubTrack(b: int, u: int, d: int, v: int, y: int, x: int)
    requires Track(b, y, u, x) && Track(d, y, v, x)
    ensures Track(b - d, y, u - v, x) && Track(d - b, y, v - u, x)
  {
    MulDist(b, d, y);
    MulDist(d, b, y);
    CongAdd(b * y, u, d * y, v, x);
    CongAdd(d * y, v, b * y, u, x);
  }

  lemma StartTrack(x: int, y: int)
    requires x > 0
    ensures Track(0, y, x, x) && Track(1, y, y, x) && SameDivisors(x, y, x, y)
  {
    CongIntro(0 * y, x, x, -1);
    CongRefl(y, x);
  }

  /** Halving while even; zero is not even for mp_iseven. */
  function Halved(u: nat): nat { if u == 0 then 0 else OddPartSmaller(u); OddPart(u) }

  lemma HalvedMeans(u: nat)
    ensures Halved(u) <= u && (u > 0 ==> Halved(u) > 0) && (u % 2 == 1 ==> Halved(u) == u)
    ensures u > 0 && u % 2 == 0 ==> Halved(u / 2) == Halved(u)
    ensures u == 0 ==> Halved(u) == 0
  {
    if u > 0 { OddPartSmaller(u); }
  }

  /** The coefficient b of u after u has been halved while even, the modulus x being odd. */
  function HalvedRow(u: nat, b: int, x: int): int {
    if u == 0 || u % 2 == 1 then b else HalvedRow(u / 2, (if b % 2 == 1 then b - x else b) / 2, x)
  }

  lemma HalvedRowStep(u: nat, b: int, x: int, h: int)
    requires u > 0 && u % 2 == 0 && h == (if b % 2 == 1 then b - x else b) / 2
    ensures HalvedRow(u, b, x) == HalvedRow(u / 2, h, x)
  {}

  lemma HalvedRowDone(u: nat, b: int, x: int)
    requires u == 0 || u % 2 == 1
    ensures HalvedRow(u, b, x) == b
  {}

  /** while u is even do u = u/2, B = B/2 or (B - x)/2 */
  method HalveWhileEven(u: MpInt, b: MpInt, x: MpInt, ghost y: int)
    requires u.Valid() && b.Valid() && x.Valid() && u !in {b, x} && b != x
    requires u.Int() >= 0 && x.Int() > 0 && x.Int() % 2 == 1 && Track(b.Int(), y, u.Int(), x.Int())
    modifies u, b
    ensures u.Valid() && b.Valid() && 0 <= old(u.Int()) && u.Int() == Halved(old(u.Int()))
    ensures Track(b.Int(), y, u.Int(), x.Int()) && (old(u.Int()) > 0 ==> u.Int() % 2 == 1)
    ensures b.Int() == HalvedRow(old(u.Int()), old(b.Int()), x.Int())
  {
    hide *;
    Parity(u);
    while IsEven(u)
      invariant u.Valid() && b.Valid() && 0 <= u.Int() && 0 <= old(u.Int()) && (old(u.Int()) > 0 ==> u.Int() > 0)
      invariant Track(b.Int(), y, u.Int(), x.Int()) && (IsEven(u) <==> u.Int() % 2 == 0 && u.Int() != 0)
      invariant Halved(u.Int()) == Halved(old(u.Int()))
      invariant HalvedRow(u.Int(), b.Int(), x.Int()) == HalvedRow(old(u.Int()), old(b.Int()), x.Int())
      decreases u.Int()
      modifies u, b
    {
      HalvedMeans(u.Int());
      ghost var m, n := u.Int(), b.Int();
      ValidIsLoose(u);
      Div2(u, u);
      Parity(b);
      if IsOdd(b) {
        Plain(b);
        Plain(x);
        Sub(b, x, b);
      }
      HalveTrack(n, y, m, x.Int(), b.Int());
      ValidIsLoose(b);
      Div2(b, b);
      HalvedInt(m, u.Int());
      HalvedInt(if n % 2 == 1 then n - x.Int() else n, b.Int());
      HalvedRowStep(m, n, x.Int(), b.Int());
      Parity(u);
    }
    NotEven(u.Int());
    HalvedMeans(u.Int());
    HalvedRowDone(u.Int(), b.Int(), x.Int());
  }

  lemma NotEven(u: int)
    ensures u % 2 == 0 || u % 2 == 1
  {}

  lemma HalvedInt(m: int, h: int)
    requires m == 2 * h
    ensures h == m / 2 && (m > 0 ==> 0 < h < m)
  {}

  /** The residue y of a, and the modulus x, are what the algorithm runs on. */
  lemma ResidueDivisors(a: int, b: int, g: int)
    requires b > 0
    ensures IsGcd(g, b, a % b) <==> IsGcd(g, a, b)
  {
    DivModDef(a, b);
    GcdShift(g, b, a, a / b);
    GcdShift(g, a, b, 0);
    assert a - a / b * b == a % b;
  }

  /** What an inverse of the residue does for a. */
  lemma TrackForA(d: int, a: int, b: int)
    requires b > 0 && Track(d, a % b, 1, b)
    ensures Cong(a * d, 1, b)
  {
    CongMod(a, b);
    CongRefl(d, b);
    CongMul(d, d, a, a % b, b);
    CongTrans(d * a, d * (a % b), 1, b);
    assert d * a == a * d;
  }

  // ----- Where the loop ends -----

  /** One round of the loop on u and v. */
  function Round(u: nat, v: nat): (nat, nat) {
    var x: nat, y: nat := Halved(u), Halved(v);
    if x >= y then (x - y, y) else (x, y - x)
  }

  /** ... and on their coefficients. */
  function RowRound(u: nat, v: nat, b: int, d: int, x: int): (int, int) {
    var e, f := HalvedRow(u, b, x), HalvedRow(v, d, x);
    if Halved(u) >= Halved(v) then (e - f, f) else (e, f - e)
  }

  /** The coefficient of v when u has become zero. */
  function LastCoefficient(u: nat, v: nat, b: int, d: int, x: int): int
    requires v > 0
    decreases u + v
  {
    if u == 0 then d
    else
      RoundMeans(u, v);
      LastCoefficient(Round(u, v).0, Round(u, v).1, RowRound(u, v, b, d, x).0, RowRound(u, v, b, d, x).1, x)
  }

  /** What the loop leaves as the coefficient of y, from x and y on. */
  function FastCoefficient(x: int, y: int): int
    requires x > 0 && y > 0
  {
    LastCoefficient(x, y, 0, 1, x)
  }

  lemma RowRoundMeans(u: nat, v: nat, b: int, d: int, x: int)
    ensures RowRound(u, v, b, d, x) == if Halved(u) < Halved(v) then (HalvedRow(u, b, x), HalvedRow(v, d, x) - HalvedRow(u, b, x))
      else (HalvedRow(u, b, x) - HalvedRow(v, d, x), HalvedRow(v, d, x))
  {}

  lemma LastCoefficientStep(u: nat, v: nat, b: int, d: int, x: int, p: nat, q: nat, e: int, f: int)
    requires v > 0 && q > 0 && u > 0 && Round(u, v) == (p, q) && RowRound(u, v, b, d, x) == (e, f)
    ensures LastCoefficient(u, v, b, d, x) == LastCoefficient(p, q, e, f, x)
  {}

  lemma LastCoefficientDone(u: nat, v: nat, b: int, d: int, x: int)
    requires v > 0 && u == 0
    ensures LastCoefficient(u, v, b, d, x) == d
  {}

  lemma FastCoefficientIs(x: int, y: int)
    requires x > 0 && y > 0
    ensures FastCoefficient(x, y) == LastCoefficient(x, y, 0, 1, x)
  {}

  lemma RoundMeans(u: nat, v: nat)
    requires u > 0
    ensures Round(u, v) == if Halved(u) < Halved(v) then (Halved(u), Halved(v) - Halved(u)) else (Halved(u) - Halved(v), Halved(v))
    ensures v > 0 ==> Round(u, v).0 + Round(u, v).1 < u + v && Round(u, v).1 > 0
  {
    HalvedMeans(u);
    HalvedMeans(v);
  }

  /** u becomes zero within n rounds. */
  ghost predicate EndsWithin(u: nat, v: nat, n: nat)
    decreases n
  {
    n > 0 && var (x, y) := Round(u, v); x == 0 || EndsWithin(x, y, n - 1)
  }

  /** With v == 0 a round leaves everything as it is. */
  lemma {:induction false} Standstill(u: nat, n: nat)
    requires u % 2 == 1
    ensures Round(u, 0) == (u, 0) && !EndsWithin(u, 0, n)
    decreases n
  {
    OddIsOddPart(u);
    if n > 0 { Standstill(u, n - 1); }
  }

  /** Otherwise the sum falls. */
  lemma {:induction false} ComesToAnEnd(u: nat, v: nat) returns (n: nat)
    requires u > 0 && v > 0
    ensures EndsWithin(u, v, n)
    decreases u + v
  {
    OddPartSmaller(u);
    OddPartSmaller(v);
    var (x, y) := Round(u, v);
    if x == 0 { return 1; }
    n := ComesToAnEnd(x, y);
    n := n + 1;
  }

  lemma ResidueNatural(a: int, b: int)
    requires b > 0
    ensures 0 <= a % b < b
  {}

  /** For an odd modulus b the loop, which starts from b and the residue of a, ends exactly if b does not divide a. */
  lemma FastLoopEnds(a: int, b: int)
    requires b > 0 && b % 2 == 1
    ensures (exists n: nat :: EndsWithin(b, a % b, n)) <==> a % b != 0
  {
    hide *;
    ResidueNatural(a, b);
    var y: nat := a % b;
    if y != 0 {
      var n := ComesToAnEnd(b, y);
      assert EndsWithin(b, a % b, n);
    } else {
      forall n: nat ensures !EndsWithin(b, a % b, n) { Standstill(b, n); }
    }
  }

  /** The main loop of fast_mp_invmod. */
  method FastLoop(u: MpInt, v: MpInt, b: MpInt, d: MpInt, x: MpInt, ghost y: int)
    requires u.Valid() && v.Valid() && b.Valid() && d.Valid() && x.Valid()
    requires u !in {v, b, d, x} && v !in {b, d, x} && b !in {d, x} && d != x
    requires x.Int() > 0 && x.Int() % 2 == 1 && u.Int() == x.Int() && v.Int() == y > 0 && b.Int() == 0 && d.Int() == 1
    modifies u, v, b, d
    ensures v.Valid() && d.Valid() && v.Int() > 0 && (v.Int() == 1 <==> IsGcd(1, x.Int(), y))
    ensures Track(d.Int(), y, v.Int(), x.Int()) && d.Int() == FastCoefficient(x.Int(), y)
  {
    hide *;
    ghost var X := x.Int();
    StartTrack(X, y);
    FastCoefficientIs(X, y);
    var more := true;
    while more
      invariant u.Valid() && v.Valid() && b.Valid() && d.Valid() && v.Int() > 0 && u.Int() >= 0
      invariant more ==> u.Int() > 0 && (u.Int() % 2 == 1 || v.Int() % 2 == 1)
      invariant !more ==> u.Int() == 0
      invariant Track(b.Int(), y, u.Int(), X) && Track(d.Int(), y, v.Int(), X) && SameDivisors(u.Int(), v.Int(), X, y)
      invariant LastCoefficient(u.Int(), v.Int(), b.Int(), d.Int(), X) == FastCoefficient(X, y)
      decreases more, u.Int() + v.Int()
      modifies u, v, b, d
    {
      ghost var U, V, E, F := u.Int(), v.Int(), b.Int(), d.Int();
      FastRound(u, v, b, d, x, y);
      LastCoefficientStep(U, V, E, F, X, u.Int(), v.Int(), b.Int(), d.Int());
      UsedPositive(u);
      more := u.used != 0;
    }
    LastDivisors(v.Int(), X, y);
    LastCoefficientDone(u.Int(), v.Int(), b.Int(), d.Int(), X);
  }

  /** Steps 4 to 6, one Round; with v == 0 it is possible too, and changes nothing. */
  method FastRound(u: MpInt, v: MpInt, b: MpInt, d: MpInt, x: MpInt, ghost y: int)
    requires u.Valid() && v.Valid() && b.Valid() && d.Valid() && x.Valid()
    requires u !in {v, b, d, x} && v !in {b, d, x} && b !in {d, x} && d != x
    requires x.Int() > 0 && x.Int() % 2 == 1 && u.Int() > 0 && v.Int() >= 0 && (u.Int() % 2 == 1 || v.Int() % 2 == 1)
    requires Track(b.Int(), y, u.Int(), x.Int()) && Track(d.Int(), y, v.Int(), x.Int()) && SameDivisors(u.Int(), v.Int(), x.Int(), y)
    modifies u, v, b, d
    ensures u.Valid() && v.Valid() && b.Valid() && d.Valid() && u.Int() >= 0 && v.Int() >= 0
    ensures old(v.Int()) > 0 ==> v.Int() > 0 && u.Int() + v.Int() < old(u.Int()) + old(v.Int())
    ensures u.Int() % 2 == 1 || v.Int() % 2 == 1
    ensures old(u.Int()) > 0 && old(v.Int()) >= 0 && Round(old(u.Int()), old(v.Int())) == (u.Int(), v.Int())
    ensures RowRound(old(u.Int()), old(v.Int()), old(b.Int()), old(d.Int()), x.Int()) == (b.Int(), d.Int())
    ensures Track(b.Int(), y, u.Int(), x.Int()) && Track(d.Int(), y, v.Int(), x.Int()) && SameDivisors(u.Int(), v.Int(), x.Int(), y)
  {
    hide *;
    RoundMeans(u.Int(), v.Int());
    RowRoundMeans(u.Int(), v.Int(), b.Int(), d.Int(), x.Int());
    OddPair(u.Int(), v.Int(), x.Int(), y);
    HalveWhileEven(u, b, x, y);
    HalveWhileEven(v, d, x, y);
    SubTrack(b.Int(), u.Int(), d.Int(), v.Int(), y, x.Int());
    DifferenceDivisors(u.Int(), v.Int(), x.Int(), y);
    SubtractSmaller(u, v, b, d);
  }

  /** if u >= v then u = u - v, B = B - D, else v = v - u, D = D - B */
  method SubtractSmaller(u: MpInt, v: MpInt, b: MpInt, d: MpInt)
    requires u.Valid() && v.Valid() && b.Valid() && d.Valid()
    requires u !in {v, b, d} && v !in {b, d} && b != d
    modifies u, v, b, d
    ensures u.Valid() && v.Valid() && b.Valid() && d.Valid()
    ensures old(u.Int()) >= old(v.Int()) ==> u.Int() == old(u.Int()) - old(v.Int()) && v.Int() == old(v.Int())
    ensures old(u.Int()) >= old(v.Int()) ==> b.Int() == old(b.Int()) - old(d.Int()) && d.Int() == old(d.Int())
    ensures old(u.Int()) < old(v.Int()) ==> v.Int() == old(v.Int()) - old(u.Int()) && u.Int() == old(u.Int())
    ensures old(u.Int()) < old(v.Int()) ==> d.Int() == old(d.Int()) - old(b.Int()) && b.Int() == old(b.Int())
  {
    hide *;
    var r := Cmp(u, v);
    LessIs(u.Int(), v.Int());
    Plain(u); Plain(v); Plain(b); Plain(d);
    if r != Lt {
      Sub(u, v, u);
      Sub(b, d, b);
    } else {
      Sub(v, u, v);
      Sub(d, b, d);
    }
  }

  lemma LessIs(x: int, y: int)
    ensures Compare(x, y) == Lt <==> x < y
  {}

  /** Both inner loops together, one of the numbers being odd. */
  lemma OddPair(u: nat, v: nat, x: int, y: int)
    requires u > 0 && (u % 2 == 1 || v % 2 == 1) && SameDivisors(u, v, x, y)
    ensures SameDivisors(Halved(u), Halved(v), x, y)
    ensures Halved(u) > 0 && (v == 0 ==> Halved(u) % 2 == 1)
  {
    HalvedMeans(u);
    HalvedMeans(v);
    if v == 0 { return; }
    OddPartMeans(u);
    OddPartMeans(v);
    if v % 2 == 1 {
      OddIsOddPart(v);
      OddDivisors(u, v, x, y);
    } else {
      OddIsOddPart(u);
      OddDivisors(v, u, x, y);
    }
  }

  /** while D is negative do D = D + b */
  method Lift(d: MpInt, b: MpInt, ghost y: int, ghost w: int)
    requires d.Valid() && b.Valid() && d != b && b.Int() > 0 && Track(d.Int(), y, w, b.Int())
    modifies d
    ensures d.Valid() && d.Int() >= 0 && Track(d.Int(), y, w, b.Int()) && d.Int() == Lifted(old(d.Int()), b.Int())
  {
    hide *;
    Plain(d);
    while d.sign == Neg
      invariant d.Valid() && Track(d.Int(), y, w, b.Int()) && (d.sign == Neg <==> d.Int() < 0)
      invariant Lifted(d.Int(), b.Int()) == Lifted(old(d.Int()), b.Int())
      decreases Deficit(d.Int())
      modifies d
    {
      AddTrack(d.Int(), y, w, b.Int());
      Plain(b);
      Plain(d);
      SmallerDeficit(d.Int(), b.Int());
      LiftedStep(d.Int(), b.Int());
      Add(d, b, d);
      Plain(d);
    }
    LiftedDone(d.Int(), b.Int());
  }

  /** d itself, or its residue if it is negative. */
  function Lifted(d: int, b: int): int
    requires b > 0
  {
    if d < 0 then d % b else d
  }

  lemma LiftedStep(d: int, b: int)
    requires d < 0 < b
    ensures Lifted(d + b, b) == Lifted(d, b)
  {
    DivModDef(d, b);
    MulDist(d / b, 1, b);
    DivModUnique(d + b, b, d / b + 1, d % b);
    if d + b >= 0 { DivModUnique(d, b, -1, d + b); }
  }

  lemma LiftedDone(d: int, b: int)
    requires b > 0 && d >= 0
    ensures Lifted(d, b) == d
  {}

  /** It is below the modulus if and only if the coefficient was. */
  lemma LiftedBelow(d: int, b: int)
    requires b > 0
    ensures Lifted(d, b) >= 0 && (Lifted(d, b) < b <==> d < b)
  {}

  lemma AddTrack(d: int, y: int, w: int, b: int)
    requires Track(d, y, w, b)
    ensures Track(d + b, y, w, b) && Track(d - b, y, w, b)
  {
    var k := CongElim(d * y, w, b);
    MulDist(d, b, y);
    assert b * y == y * b;
    MulDist(k, y, b);
    CongIntro((d + b) * y, w, b, k + y);
    CongIntro((d - b) * y, w, b, k - y);
  }

  /** How far d is below zero. */
  function Deficit(d: int): nat { if d < 0 then -d else 0 }

  lemma SmallerDeficit(d: int, b: int)
    requires d < 0 < b
    ensures Deficit(d + b) < Deficit(d)
  {}

  /** From the residue of a to the end of the loop; all numbers are new. */
  method FastDescent(a: MpInt, b: MpInt, ghost A: int, ghost N: int) returns (v: MpInt, d: MpInt)
    requires a.Valid() && b.Valid() && a.Int() == A && b.Int() == N && N > 0 && N % 2 == 1 && A % N != 0
    ensures fresh(v) && fresh(d) && v.Valid() && d.Valid()
    ensures (v.Int() == 1 <==> IsGcd(1, A, N)) && Track(d.Int(), A % N, v.Int(), N)
    ensures A % N > 0 && d.Int() == FastCoefficient(N, A % N)
  {
    hide *;
    var y := new MpInt();
    var res := Mod(a, b, y);
    ResidueOfPositive(A, N);
    ModRange(A, N);
    var x := new MpInt.Copied(b);
    var u := new MpInt.Copied(x);
    v := new MpInt.Copied(y);
    var p := new MpInt();
    d := new MpInt();
    SetSmall(d, 1);
    FastLoop(u, v, p, d, x, A % N);
    ResidueDivisors(A, N, 1);
  }

  /** The result is the lifted coefficient, up to its sign.  It lies below the modulus if and only if the coefficient does,
      and never reaches more than its multiple by the number of its bits and one. */
  ghost predicate FastSize(a: int, b: int, c: int) {
    && b > 0 && a % b > 0 && Abs(c) == Lifted(FastCoefficient(b, a % b), b)
    && (Abs(c) < b <==> FastCoefficient(b, a % b) < b)
    && forall l: nat :: b <= Pow(2, l) ==> Abs(c) <= (l + 1) * b
  }

  lemma SizeOfResult(a: int, b: int, c: int)
    requires b > 0 && b % 2 == 1 && a % b > 0 && c == Lifted(FastCoefficient(b, a % b), b)
    ensures FastSize(a, b, c) && FastSize(a, b, -c)
  {
    ModRange(a, b);
    LiftedBelow(FastCoefficient(b, a % b), b);
    forall l: nat | b <= Pow(2, l) ensures c <= (l + 1) * b {
      CoefficientBound(b, a % b, l);
      MulMono(1, l + 1, b);
    }
  }

  // ----- How large the coefficients get -----

  lemma {:induction false} HalvedRowBound(u: nat, b: int, x: int, s: int)
    requires x > 0 && x % 2 == 1 && s >= 2 * x && 2 * Abs(b) <= s
    ensures 2 * Abs(HalvedRow(u, b, x)) <= s
    decreases u
  {
    if u > 0 && u % 2 == 0 {
      var h := (if b % 2 == 1 then b - x else b) / 2;
      HalfBound(b, x, s, h);
      HalvedRowStep(u, b, x, h);
      HalvedRowBound(u / 2, h, x, s);
    } else {
      HalvedRowDone(u, b, x);
    }
  }

  lemma HalfBound(b: int, x: int, s: int, h: int)
    requires x > 0 && x % 2 == 1 && s >= 2 * x && 2 * Abs(b) <= s && h == (if b % 2 == 1 then b - x else b) / 2
    ensures 2 * Abs(h) <= s
  {
    assert 2 * h == (if b % 2 == 1 then b - x else b);
  }

  /** A difference is halved at least once. */
  lemma DifferenceBound(u: nat, b: int, x: int, s: int)
    requires u > 0 && u % 2 == 0 && x > 0 && x % 2 == 1 && s >= 2 * x && Abs(b) <= s
    ensures 2 * Abs(HalvedRow(u, b, x)) <= s + x
  {
    HalvedRowBound(u / 2, (if b % 2 == 1 then b - x else b) / 2, x, s + x);
  }

  lemma HalvedOnce(u: nat)
    requires u > 0 && u % 2 == 0
    ensures 2 * Halved(u) <= u
  {
    HalvedMeans(u);
    HalvedMeans(u / 2);
  }

  /** Each round adds at most half a modulus and halves the product of the two numbers. */
  lemma {:induction false} LastCoefficientBound(u: nat, v: nat, b: int, d: int, x: int, s: int, k: nat)
    requires u > 0 && v > 0 && x > 0 && x % 2 == 1 && s >= 2 * x && Halved(u) * Halved(v) <= Pow(2, k)
    requires 2 * Abs(HalvedRow(u, b, x)) <= s && 2 * Abs(HalvedRow(v, d, x)) <= s
    ensures 2 * Abs(LastCoefficient(u, v, b, d, x)) <= s + k * x
    decreases u + v
  {
    hide Pow, Halved, HalvedRow, OddPart;
    var p, q := Halved(u), Halved(v);
    var e, f := HalvedRow(u, b, x), HalvedRow(v, d, x);
    RoundMeans(u, v);
    OddPartMeans(u);
    OddPartMeans(v);
    HalvedIsOddPart(u);
    HalvedIsOddPart(v);
    MulNonNegative(k, x);
    if p == q {
      assert LastCoefficient(u, v, b, d, x) == LastCoefficient(0, q, e - f, f, x);
    } else if p > q {
      RoundBound(p, q, e, f, x, s, k);
      LastCoefficientBound(p - q, q, e - f, f, x, s + x, k - 1);
      MulDist(k, 1, x);
    } else {
      RoundBound(q, p, f, e, x, s, k);
      LastCoefficientBound(p, q - p, e, f - e, x, s + x, k - 1);
      MulDist(k, 1, x);
    }
  }

  lemma HalvedIsOddPart(u: nat)
    requires u > 0
    ensures Halved(u) == OddPart(u)
  {}

  lemma RoundBound(p: nat, q: nat, e: int, f: int, x: int, s: int, k: nat)
    requires p > q > 0 && p % 2 == 1 && q % 2 == 1 && x > 0 && x % 2 == 1 && s >= 2 * x && p * q <= Pow(2, k) && 2 * Abs(e) <= s && 2 * Abs(f) <= s
    ensures k > 0 && Halved(p - q) * Halved(q) <= Pow(2, k - 1) && Halved(q) * Halved(p - q) <= Pow(2, k - 1)
    ensures 2 * Abs(HalvedRow(p - q, e - f, x)) <= s + x && 2 * Abs(HalvedRow(q, f, x)) <= s + x
  {
    hide Pow, Halved, HalvedRow, OddPart;
    HalvedMeans(q);
    HalvedOnce(p - q);
    DifferenceBound(p - q, e - f, x, s);
    HalvedRowDone(q, f, x);
    HalvedMeans(p - q);
    HalfProduct(Halved(p - q), p, q, k);
  }

  lemma HalfProduct(h: int, p: int, q: int, k: nat)
    requires h > 0 && q > 0 && 2 * h <= p && p * q <= Pow(2, k)
    ensures k > 0 && h * q <= Pow(2, k - 1) && q * h <= Pow(2, k - 1)
  {
    MulMono(2 * h, p, q);
    MulAssoc(2, h, q);
    MulPositive(h, q);
    assert Pow(2, 0) == 1;
  }

  lemma CoefficientBound(x: int, y: int, l: nat)
    requires x % 2 == 1 && 0 < y < x <= Pow(2, l)
    ensures Abs(FastCoefficient(x, y)) <= (l + 1) * x
  {
    HalvedRowBound(y, 1, x, 2 * x);
    HalvedRowDone(x, 0, x);
    HalvedMeans(x);
    HalvedMeans(y);
    PowAdd(2, l, l);
    MulMono(Halved(x), Pow(2, l), Halved(y));
    MulMono(Halved(y), Pow(2, l), Pow(2, l));
    LastCoefficientBound(x, y, 0, 1, x, 2 * x, l + l);
    MulDist(l, l, x);
    MulDist(l, 1, x);
  }

  /** For example, a = 253 and b = 777: the coefficient is 820, and that is the result, although 43 is the inverse. */
  lemma NotReducedExample()
    ensures 253 % 777 == 253 && IsGcd(1, 253, 777) && FastCoefficient(777, 253) == 820
    ensures forall c :: FastSize(253, 777, c) ==> Abs(c) == 820
    ensures Cong(253 * 820, 1, 777) && Cong(253 * 43, 1, 777)
  {
    CongIntro(253 * 820, 1, 777, 267);
    CongIntro(253 * 43, 1, 777, 14);
    Coprime();
    Rounds777();
  }

  lemma Coprime()
    ensures IsGcd(1, 253, 777)
  {
    hide *;
    GcdShift(1, 253, 777, 3);
    GcdShift(1, 253, 18, 0);
    GcdShift(1, 18, 253, 14);
    GcdShift(1, 18, 1, 0);
    GcdShift(1, 1, 18, 18);
    GcdWithZero(1);
  }

  lemma Rounds777()
    ensures FastCoefficient(777, 253) == 820
  {
    hide *;
    FastCoefficientIs(777, 253);
    OddStays777(777, 0);
    OddStays777(253, 1);
    RoundOf777(777, 253, 0, 1, 777, 253, 0, 1);
    HalveOnce777(524, -1);
    HalveOnce777(262, -389);
    OddStays777(131, -583);
    RoundOf777(524, 253, -1, 1, 131, 253, -583, 1);
    HalveOnce777(122, 584);
    OddStays777(61, 292);
    RoundOf777(131, 122, -583, 584, 131, 61, -583, 292);
    HalveOnce777(70, -875);
    OddStays777(35, -826);
    RoundOf777(70, 61, -875, 292, 35, 61, -826, 292);
    HalveOnce777(26, 1118);
    OddStays777(13, 559);
    RoundOf777(35, 26, -826, 1118, 35, 13, -826, 559);
    HalveOnce777(22, -1385);
    OddStays777(11, -1081);
    RoundOf777(22, 13, -1385, 559, 11, 13, -1081, 559);
    HalveOnce777(2, 1640);
    OddStays777(1, 820);
    RoundOf777(11, 2, -1081, 1640, 11, 1, -1081, 820);
    HalveOnce777(10, -1901);
    OddStays777(5, -1339);
    RoundOf777(10, 1, -1901, 820, 5, 1, -1339, 820);
    HalveOnce777(4, -2159);
    HalveOnce777(2, -1468);
    OddStays777(1, -734);
    RoundOf777(4, 1, -2159, 820, 1, 1, -734, 820);
    LastCoefficientDone(0, 1, -1554, 820, 777);
  }

  lemma HalveOnce777(u: nat, b: int)
    requires u > 0 && u % 2 == 0
    ensures Halved(u) == Halved(u / 2) && HalvedRow(u, b, 777) == HalvedRow(u / 2, (if b % 2 == 1 then b - 777 else b) / 2, 777)
  {
    HalvedMeans(u);
  }

  lemma OddStays777(u: nat, b: int)
    requires u % 2 == 1
    ensures Halved(u) == u && HalvedRow(u, b, 777) == b
  {
    HalvedMeans(u);
  }

  lemma RoundOf777(u: nat, v: nat, b: int, d: int, p: nat, q: nat, e: int, f: int)
    requires u > 0 && v > 0 && Halved(u) == p > 0 && Halved(v) == q > 0 && HalvedRow(u, b, 777) == e && HalvedRow(v, d, 777) == f
    ensures p >= q ==> LastCoefficient(u, v, b, d, 777) == LastCoefficient(p - q, q, e - f, f, 777)
    ensures p < q ==> LastCoefficient(u, v, b, d, 777) == LastCoefficient(p, q - p, e, f - e, 777)
  {
    RoundMeans(u, v);
  }

  /** fast_mp_invmod for an odd modulus that does not divide a: FastLoopEnds shows that otherwise there is no
      result to speak of.  A negative a hands its sign to the result. */
  method FastInvMod(a: MpInt, b: MpInt, c: MpInt) returns (res: Status)
    requires a.Valid() && b.Valid() && c.Valid() && b.Int() > 0
    requires b.Int() % 2 == 1 ==> a.Int() % b.Int() != 0
    modifies c
    ensures c.Valid() && (res == Okay <==> old(b.Int()) % 2 == 1 && IsGcd(1, old(a.Int()), old(b.Int())))
    ensures res == Okay ==> Cong(old(a.Int()) * c.Int(), if old(a.Int()) < 0 then -1 else 1, old(b.Int()))
    ensures res == Okay ==> (c.Int() < 0 <==> old(a.Int()) < 0) && c.Int() != 0
    ensures res == Okay ==> FastSize(old(a.Int()), old(b.Int()), c.Int())
    ensures res != Okay ==> c.Int() == old(c.Int())
  {
    hide *;
    ghost var A, N := a.Int(), b.Int();
    Parity(b);
    if IsEven(b) { return BadValue; }
    NotEven(N);
    var v, d := FastDescent(a, b, A, N);
    var one := CmpD1(v);
    if one != Eq { return BadValue; }
    Lift(d, b, A % N, 1);
    TrackForA(d.Int(), A, N);
    ghost var D := d.Int();
    SizeOfResult(A, N, D);
    NotZeroInverse(D, A, N);
    SignMeans(a);
    GiveSigned(d, c, a.sign);
    SignedInverse(A, D, N);
    return Okay;
  }

  lemma ModRange(a: int, n: int)
    requires n > 0
    ensures a % n != 0 ==> n > 1 && 0 < a % n < n
  {}

  method CmpD1(v: MpInt) returns (r: Order)
    requires v.Valid()
    ensures r == Eq <==> v.Int() == 1
  {
    r := CmpD(v, 1);
  }

  lemma NotZeroInverse(d: int, a: int, n: int)
    requires n > 1 && Cong(a * d, 1, n) && d >= 0
    ensures d > 0
  {
    if d == 0 {
      var k := CongElim(a * d, 1, n);
      if k >= 0 { MulMono(0, k, n); }
      if k <= -1 { MulMono(k, -1, n); }
    }
  }

  /** mp_exch, then the sign. */
  method GiveSigned(d: MpInt, c: MpInt, neg: Sign)
    requires d.Valid() && d != c && d.Int() > 0
    modifies d, c
    ensures c.Valid() && c.Int() == Signed(neg, old(d.Int())) && c.Int() != 0 && (c.Int() < 0 <==> neg == Neg)
  {
    MagBounds(d);
    Exch(d, c);
    c.sign := neg;
  }

  lemma SignedInverse(a: int, d: int, n: int)
    requires n > 0 && Cong(a * d, 1, n)
    ensures Signed(Neg, d) == -d && Signed(ZPos, d) == d
    ensures Cong(a * -d, -1, n)
  {
    var k := CongElim(a * d, 1, n);
    assert a * -d == -(a * d);
    CongIntro(a * -d, -1, n, -k);
  }

  /** For example, whatever FastInvMod may return for a = -1 and b = 3, which have an inverse, it is none; it is -2. */
  lemma WrongSignExample(c: int)
    requires Cong(-1 * c, -1, 3)
    ensures -1 % 3 != 0 && IsGcd(1, -1, 3) && Cong(-1 * -1, 1, 3)
    ensures !Cong(-1 * c, 1, 3) && Cong(-1 * -2, -1, 3)
  {
    CongIntro(-1 * -1, 1, 3, 0);
    CongIntro(-1 * -2, -1, 3, 1);
    FastInverseOnlyIfPositive(-1, c, 3);
    UnitGcd(-1, 3);
  }

  lemma UnitGcd(a: int, b: int)
    requires a == 1 || a == -1
    ensures IsGcd(1, a, b)
  {}

  /** So the result is an inverse exactly for a positive a. */
  lemma FastInverseOnlyIfPositive(a: int, c: int, b: int)
    requires b >= 3 && Cong(a * c, if a < 0 then -1 else 1, b)
    ensures Cong(a * c, 1, b) <==> a >= 0
  {
    if a < 0 && Cong(a * c, 1, b) {
      CongSym(a * c, -1, b);
      CongTrans(-1, a * c, 1, b);
      var k := CongElim(-1, 1, b);
      if k >= 0 { MulMono(0, k, b); }
      if k <= -1 { MulMono(k, -1, b); }
    }
  }
}
