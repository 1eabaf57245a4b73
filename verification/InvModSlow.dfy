/** The general binary inverse (bn_mp_invmod_slow.c) and the choice between the two (bn_mp_invmod.c). */
module InvModSlow {
  import opened Arith
  import opened Congruences
  import opened Primes
  import opened GcdSpec
  import opened MpInts
  import opened MpAdd
  import opened MpSmall
  import opened MpDiv
  import opened MpMod
  import opened Gcd
  import opened InvMod

  /** Halving a row a * x + b * y == u: unless both coefficients are even they are shifted by (y, -x) first. */
  lemma HalveRow(a: int, b: int, u: int, x: int, y: int, a': int, b': int)
    requires Bezout(x, y, a, b, u) && u % 2 == 0 && (x % 2 == 1 || y % 2 == 1)
    requires a' == (if a % 2 == 1 || b % 2 == 1 then a + y else a) && b' == (if a % 2 == 1 || b % 2 == 1 then b - x else b)
    ensures a' % 2 == 0 && b' % 2 == 0 && Bezout(x, y, a' / 2, b' / 2, u / 2)
  {
    EvenCoefficients(a, b, x, y, a', b');
    assert x * (a + y) + y * (b - x) == x * a + y * b by {
      assert x * (a + y) == x * a + x * y;
      assert y * (b - x) == y * b - y * x;
    }
    HalfSum2(x, y, a' / 2, b' / 2, a', b', u);
  }

  lemma HalfSum2(x: int, y: int, h: int, k: int, a: int, b: int, u: int)
    requires a == 2 * h && b == 2 * k && x * a + y * b == u
    ensures Bezout(x, y, h, k, u / 2)
  {
    assert x * a == 2 * (x * h) && y * b == 2 * (y * k);
  }

  lemma EvenCoefficients(a: int, b: int, x: int, y: int, a': int, b': int)
    requires (x * a + y * b) % 2 == 0 && (x % 2 == 1 || y % 2 == 1)
    requires a' == (if a % 2 == 1 || b % 2 == 1 then a + y else a) && b' == (if a % 2 == 1 || b % 2 == 1 then b - x else b)
    ensures a' % 2 == 0 && b' % 2 == 0
  {
    ParityOfSum(x, a, y, b);
    Bits(x % 2, a % 2, y % 2, b % 2);
  }

  lemma Bits(p: int, q: int, r: int, s: int)
    requires p in {0, 1} && q in {0, 1} && r in {0, 1} && s in {0, 1} && (p == 1 || r == 1) && (p * q + r * s) % 2 == 0
    ensures q == 1 || s == 1 ==> (q + r) % 2 == 0 && (s - p) % 2 == 0
  {}

  /** The parity of x * a + y * b. */
  lemma ParityOfSum(x: int, a: int, y: int, b: int)
    ensures (x * a + y * b) % 2 == ((x % 2) * (a % 2) + (y % 2) * (b % 2)) % 2
  {
    ParityOfProduct(x, a);
    ParityOfProduct(y, b);
    AddParity(x * a, y * b);
  }

  lemma AddParity(p: int, q: int)
    ensures (p + q) % 2 == (p % 2 + q % 2) % 2
  {}

  lemma ParityOfProduct(x: int, a: int)
    ensures (x * a) % 2 == (x % 2) * (a % 2)
  {
    if x % 2 == 0 {
      EvenTimes(x / 2, a);
    } else {
      EvenTimes(x / 2, a);
      OnePlus(2 * (x / 2), a);
      AddParity(2 * (x / 2) * a, a);
    }
  }

  lemma EvenTimes(m: int, a: int)
    ensures 2 * m * a % 2 == 0
  {
    MulAssoc(2, m, a);
    DivModUnique(2 * m * a, 2, m * a, 0);
  }

  lemma OnePlus(m: int, a: int)
    ensures (m + 1) * a == m * a + a
  {
    MulDist(m, 1, a);
  }

  /** A row that matters: if the residue x is zero, coefficients mean nothing. */
  ghost predicate RowOk(x: int, y: int, a: int, b: int, u: int) { x != 0 ==> Bezout(x, y, a, b, u) && (x % 2 == 1 || y % 2 == 1) }

  lemma HalfOddPart(u: int)
    requires u > 0 && u % 2 == 0
    ensures u / 2 > 0 && OddPart(u) == OddPart(u / 2)
  {}

  /** while u is even do u = u/2, (A, B) = (A, B)/2 or (A + y, B - x)/2 */
  method HalveWhileEven2(u: MpInt, a: MpInt, b: MpInt, x: MpInt, y: MpInt)
    requires u.Valid() && a.Valid() && b.Valid() && x.Valid() && y.Valid()
    requires u !in {a, b, x, y} && a !in {b, x, y} && b !in {x, y}
    requires u.Int() >= 0 && RowOk(x.Int(), y.Int(), a.Int(), b.Int(), u.Int())
    modifies u, a, b
    ensures u.Valid() && a.Valid() && b.Valid() && RowOk(x.Int(), y.Int(), a.Int(), b.Int(), u.Int())
    ensures old(u.Int()) > 0 ==> u.Int() == OddPart(old(u.Int())) && u.Int() > 0 && u.Int() % 2 == 1 && u.Int() <= old(u.Int())
    ensures old(u.Int()) == 0 ==> u.Int() == 0
  {
    hide *;
    Parity(u);
    while IsEven(u)
      invariant u.Valid() && a.Valid() && b.Valid() && 0 <= u.Int() <= old(u.Int())
      invariant RowOk(x.Int(), y.Int(), a.Int(), b.Int(), u.Int())
      invariant IsEven(u) <==> u.Int() % 2 == 0 && u.Int() != 0
      invariant old(u.Int()) > 0 ==> u.Int() > 0 && OddPart(u.Int()) == OddPart(old(u.Int()))
      decreases u.Int()
      modifies u, a, b
    {
      HalfOddPart(u.Int());
      HalveOnce(u, a, b, x, y);
      Parity(u);
    }
    NotEven(u.Int());
    if u.Int() > 0 { OddIsOddPart(u.Int()); }
  }

  method HalveOnce(u: MpInt, a: MpInt, b: MpInt, x: MpInt, y: MpInt)
    requires u.Valid() && a.Valid() && b.Valid() && x.Valid() && y.Valid()
    requires u !in {a, b, x, y} && a !in {b, x, y} && b !in {x, y}
    requires u.Int() > 0 && u.Int() % 2 == 0 && RowOk(x.Int(), y.Int(), a.Int(), b.Int(), u.Int())
    modifies u, a, b
    ensures u.Valid() && a.Valid() && b.Valid() && u.Int() == old(u.Int()) / 2
    ensures RowOk(x.Int(), y.Int(), a.Int(), b.Int(), u.Int())
  {
    hide *;
    ghost var X, Y, U, A, D := x.Int(), y.Int(), u.Int(), a.Int(), b.Int();
    ValidIsLoose(u);
    Div2(u, u);
    HalvedInt(U, u.Int());
    Parity(a);
    Parity(b);
    if IsOdd(a) || IsOdd(b) {
      Plain(a); Plain(b); Plain(x); Plain(y);
      Add(a, y, a);
      Sub(b, x, b);
    }
    ghost var A', D' := a.Int(), b.Int();
    ValidIsLoose(a);
    Div2(a, a);
    ValidIsLoose(b);
    Div2(b, b);
    RowHalved(A, D, U, X, Y, A', D', a.Int(), b.Int());
  }

  lemma RowHalved(a: int, b: int, u: int, x: int, y: int, a': int, b': int, h: int, k: int)
    requires RowOk(x, y, a, b, u) && u % 2 == 0
    requires a' == (if a % 2 == 1 || b % 2 == 1 then a + y else a) && b' == (if a % 2 == 1 || b % 2 == 1 then b - x else b)
    requires a' % 2 == 0 ==> a' == 2 * h
    requires b' % 2 == 0 ==> b' == 2 * k
    ensures RowOk(x, y, h, k, u / 2)
  {
    if x != 0 {
      HalveRow(a, b, u, x, y, a', b');
      HalvedInt(a', h);
      HalvedInt(b', k);
    }
  }

  lemma SubRow(x: int, y: int, a: int, b: int, u: int, c: int, d: int, v: int)
    requires RowOk(x, y, a, b, u) && RowOk(x, y, c, d, v)
    ensures RowOk(x, y, a - c, b - d, u - v) && RowOk(x, y, c - a, d - b, v - u)
  {
    assert x * (a - c) == x * a - x * c && y * (b - d) == y * b - y * d;
    assert x * (c - a) == x * c - x * a && y * (d - b) == y * d - y * b;
  }

  /** What the two numbers have in common with x and y; for x == 0 only v matters, and of it the odd part. */
  ghost predicate Common(x: int, y: int, u: int, v: int) {
    y > 0 && (x != 0 ==> SameDivisors(u, v, x, y)) && (x == 0 ==> u == 0 && v > 0 && OddPart(v) == OddPart(y))
  }

  lemma CommonStart(x: int, y: int)
    requires y > 0
    ensures Common(x, y, x, y) && (x % 2 == 1 || y % 2 == 1 || x == 0 ==> RowOk(x, y, 1, 0, x) && RowOk(x, y, 0, 1, y))
  {}

  /** Steps 4 and 5. */
  lemma CommonOdd(x: int, y: int, u: int, v: int, u': int, v': int)
    requires Common(x, y, u, v) && v > 0 && v' == OddPart(v)
    requires u >= 0 && (u == 0 ==> u' == 0 && x == 0) && (u > 0 ==> u' == OddPart(u) && x != 0)
    requires u > 0 ==> u % 2 == 1 || v % 2 == 1
    ensures Common(x, y, u', v')
  {
    OddPartMeans(v);
    if u > 0 {
      OddPair(u, v, x, y);
    } else {
      OddIsOddPart(v');
    }
  }

  /** Step 6. */
  lemma CommonSub(x: int, y: int, u: int, v: int)
    requires Common(x, y, u, v)
    ensures x != 0 ==> Common(x, y, u - v, v) && Common(x, y, u, v - u)
    ensures x == 0 ==> Common(x, y, u, v - u)
  {
    if x != 0 { DifferenceDivisors(u, v, x, y); }
  }

  /** The end. */
  lemma CommonEnd(x: int, y: int, v: int)
    requires Common(x, y, 0, v) && v > 0 && v % 2 == 1
    ensures x != 0 ==> (v == 1 <==> IsGcd(1, x, y))
    ensures x == 0 ==> (v == 1 <==> OddPart(y) == 1)
  {
    if x != 0 {
      LastDivisors(v, x, y);
    } else {
      OddIsOddPart(v);
    }
  }

  lemma CommonPositive(x: int, y: int, u: int, v: int)
    requires Common(x, y, u, v) && u > 0
    ensures x != 0
  {}

  /** Steps 4 to 6. */
  method SlowRound(u: MpInt, v: MpInt, a: MpInt, b: MpInt, c: MpInt, d: MpInt, x: MpInt, y: MpInt)
    requires u.Valid() && v.Valid() && a.Valid() && b.Valid() && c.Valid() && d.Valid() && x.Valid() && y.Valid()
    requires u !in {v, a, b, c, d, x, y} && v !in {a, b, c, d, x, y} && a !in {b, c, d, x, y}
    requires b !in {c, d, x, y} && c !in {d, x, y} && d !in {x, y}
    requires u.Int() >= 0 && v.Int() > 0 && Common(x.Int(), y.Int(), u.Int(), v.Int())
    requires u.Int() > 0 ==> u.Int() % 2 == 1 || v.Int() % 2 == 1
    requires u.Int() == 0 ==> x.Int() == 0
    requires RowOk(x.Int(), y.Int(), a.Int(), b.Int(), u.Int()) && RowOk(x.Int(), y.Int(), c.Int(), d.Int(), v.Int())
    modifies u, v, a, b, c, d
    ensures u.Valid() && v.Valid() && a.Valid() && b.Valid() && c.Valid() && d.Valid()
    ensures u.Int() >= 0 && v.Int() > 0 && Common(x.Int(), y.Int(), u.Int(), v.Int())
    ensures u.Int() % 2 == 1 || v.Int() % 2 == 1
    ensures u.Int() == 0 ==> v.Int() % 2 == 1
    ensures old(u.Int()) == 0 ==> u.Int() == 0
    ensures old(u.Int()) > 0 ==> u.Int() + v.Int() < old(u.Int()) + old(v.Int())
    ensures RowOk(x.Int(), y.Int(), a.Int(), b.Int(), u.Int()) && RowOk(x.Int(), y.Int(), c.Int(), d.Int(), v.Int())
  {
    hide *;
    if u.Int() > 0 { CommonPositive(x.Int(), y.Int(), u.Int(), v.Int()); }
    HalveWhileEven2(u, a, b, x, y);
    HalveWhileEven2(v, c, d, x, y);
    CommonOdd(x.Int(), y.Int(), old(u.Int()), old(v.Int()), u.Int(), v.Int());
    CommonSub(x.Int(), y.Int(), u.Int(), v.Int());
    SubRow(x.Int(), y.Int(), a.Int(), b.Int(), u.Int(), c.Int(), d.Int(), v.Int());
    if u.Int() > 0 { CommonPositive(x.Int(), y.Int(), u.Int(), v.Int()); }
    var r := Cmp(u, v);
    LessIs(u.Int(), v.Int());
    Plain(u); Plain(v); Plain(a); Plain(b); Plain(c); Plain(d);
    if r != Lt {
      Sub(u, v, u);
      Sub(a, c, a);
      Sub(b, d, b);
    } else {
      Sub(v, u, v);
      Sub(c, a, c);
      Sub(d, b, d);
    }
  }

  /** The main loop. */
  method SlowLoop(u: MpInt, v: MpInt, a: MpInt, b: MpInt, c: MpInt, d: MpInt, x: MpInt, y: MpInt)
    requires u.Valid() && v.Valid() && a.Valid() && b.Valid() && c.Valid() && d.Valid() && x.Valid() && y.Valid()
    requires u !in {v, a, b, c, d, x, y} && v !in {a, b, c, d, x, y} && a !in {b, c, d, x, y}
    requires b !in {c, d, x, y} && c !in {d, x, y} && d !in {x, y}
    requires u.Int() >= 0 && v.Int() > 0 && Common(x.Int(), y.Int(), u.Int(), v.Int())
    requires u.Int() > 0 ==> u.Int() % 2 == 1 || v.Int() % 2 == 1
    requires u.Int() == 0 ==> x.Int() == 0
    requires RowOk(x.Int(), y.Int(), a.Int(), b.Int(), u.Int()) && RowOk(x.Int(), y.Int(), c.Int(), d.Int(), v.Int())
    modifies u, v, a, b, c, d
    ensures v.Valid() && c.Valid() && d.Valid() && RowOk(x.Int(), y.Int(), c.Int(), d.Int(), v.Int())
    ensures x.Int() != 0 ==> (v.Int() == 1 <==> IsGcd(1, x.Int(), y.Int()))
    ensures x.Int() == 0 ==> y.Int() > 0 && (v.Int() == 1 <==> OddPart(y.Int()) == 1)
  {
    hide *;
    ghost var X, Y := x.Int(), y.Int();
    var more := true;
    while more
      invariant u.Valid() && v.Valid() && a.Valid() && b.Valid() && c.Valid() && d.Valid()
      invariant u.Int() >= 0 && v.Int() > 0 && Common(X, Y, u.Int(), v.Int())
      invariant u.Int() > 0 ==> u.Int() % 2 == 1 || v.Int() % 2 == 1
      invariant more && u.Int() == 0 ==> X == 0
      invariant !more ==> u.Int() == 0 && v.Int() % 2 == 1
      invariant RowOk(X, Y, a.Int(), b.Int(), u.Int()) && RowOk(X, Y, c.Int(), d.Int(), v.Int())
      decreases more, u.Int() + v.Int()
      modifies u, v, a, b, c, d
    {
      SlowRound(u, v, a, b, c, d, x, y);
      UsedPositive(u);
      more := u.used != 0;
    }
    CommonModulus(X, Y, u.Int(), v.Int());
    CommonEnd(X, Y, v.Int());
  }

  lemma CommonModulus(x: int, y: int, u: int, v: int)
    requires Common(x, y, u, v)
    ensures y > 0
  {}

  /** while |C| >= b do C = C - b */
  method Lower(c: MpInt, b: MpInt, ghost y: int, ghost w: int)
    requires c.Valid() && b.Valid() && c != b && b.Int() > 0 && c.Int() >= 0 && Track(c.Int(), y, w, b.Int())
    modifies c
    ensures c.Valid() && 0 <= c.Int() < b.Int() && Track(c.Int(), y, w, b.Int())
  {
    hide *;
    Plain(c);
    Plain(b);
    var r := CmpMag(c, b);
    LessIs(c.Int(), b.Int());
    while r != Lt
      invariant c.Valid() && c.Int() >= 0 && Track(c.Int(), y, w, b.Int()) && (r == Lt <==> c.Int() < b.Int())
      decreases Abs(c.Int())
      modifies c
    {
      AddTrack(c.Int(), y, w, b.Int());
      AbsFalls(c.Int(), b.Int());
      Plain(c);
      Plain(b);
      Sub(c, b, c);
      Plain(c);
      Plain(b);
      r := CmpMag(c, b);
      LessIs(c.Int(), b.Int());
    }
  }

  lemma AbsFalls(c: int, b: int)
    requires c >= b > 0
    ensures Abs(c - b) < Abs(c)
  {}

  lemma RowIsTrack(x: int, y: int, c: int, d: int)
    requires x != 0 && y > 0 && RowOk(x, y, c, d, 1)
    ensures Cong(c * x, 1, y)
  {
    assert x * c == c * x && y * d == d * y;
    CongIntro(c * x, 1, y, -d);
  }

  lemma AnyTrack(c: int, y: int, b: int)
    requires b > 0
    ensures Track(c, y, c * y, b)
  {
    CongRefl(c * y, b);
  }

  lemma InverseOfResidue(a: int, b: int, c: int, c0: int)
    requires b > 0 && Track(c, a % b, c0 * (a % b), b) && Cong(c0 * (a % b), 1, b)
    ensures Cong(a * c, 1, b)
  {
    CongTrans(c * (a % b), c0 * (a % b), 1, b);
    TrackForA(c, a, b);
  }

  lemma Remainder(a: int, n: int)
    requires n > 0
    ensures 0 <= a % n < n
  {}

  lemma GcdSides(g: int, x: int, y: int)
    ensures IsGcd(g, x, y) <==> IsGcd(g, y, x)
  {
    GcdShift(g, x, y, 0);
  }

  lemma BothEven(x: int, y: int)
    requires x % 2 == 0 && y % 2 == 0
    ensures !IsGcd(1, x, y)
  {
    DivModUnique(1, 2, 0, 1);
    assert Divides(2, x) && Divides(2, y) && !Divides(2, 1);
  }

  method Hand(d: MpInt, c: MpInt)
    requires d.Valid() && d != c
    modifies d, c
    ensures c.Valid() && c.Int() == old(d.Int())
  {
    Exch(d, c);
  }

  /** Steps 3 to 6 on the residue x and the modulus y; C is the candidate. */
  method Inverse(x: MpInt, y: MpInt) returns (one: Order, C: MpInt)
    requires x.Valid() && y.Valid() && x.Int() >= 0 && y.Int() > 0
    requires x.Int() == 0 || x.Int() % 2 == 1 || y.Int() % 2 == 1
    ensures fresh(C) && C.Valid()
    ensures x.Int() != 0 ==> (one == Eq <==> IsGcd(1, x.Int(), y.Int())) && (one == Eq ==> Cong(C.Int() * x.Int(), 1, y.Int()))
    ensures x.Int() == 0 ==> (one == Eq <==> OddPart(y.Int()) == 1)
  {
    hide *;
    CommonStart(x.Int(), y.Int());
    var u := new MpInt.Copied(x);
    var v := new MpInt.Copied(y);
    var A := new MpInt();
    var D := new MpInt();
    var E := new MpInt();
    C := new MpInt();
    SetSmall(A, 1);
    SetSmall(D, 1);
    SlowLoop(u, v, A, E, C, D, x, y);
    one := CmpD1(v);
    if one == Eq && x.Int() != 0 { RowIsTrack(x.Int(), y.Int(), C.Int(), D.Int()); }
  }

  /** mp_invmod_slow.  For a modulus that does not divide a it is right; when b divides a, the residue is zero,
      passes for "not even", and the answer is yes exactly if b is a power of two. */
  method SlowInvMod(a: MpInt, b: MpInt, c: MpInt) returns (res: Status)
    requires a.Valid() && b.Valid() && c.Valid()
    modifies c
    ensures c.Valid() && (old(b.Int()) <= 0 ==> res != Okay)
    ensures old(b.Int()) > 0 && old(a.Int()) % old(b.Int()) != 0 ==> (res == Okay <==> IsGcd(1, old(a.Int()), old(b.Int())))
    ensures old(b.Int()) > 0 && old(a.Int()) % old(b.Int()) != 0 && res == Okay ==> Cong(old(a.Int()) * c.Int(), 1, old(b.Int()))
    ensures old(b.Int()) > 0 && old(a.Int()) % old(b.Int()) == 0 ==> (res == Okay <==> OddPart(old(b.Int())) == 1)
    ensures res == Okay ==> 0 <= c.Int() < old(b.Int())
    ensures res != Okay ==> c.Int() == old(c.Int())
  {
    hide *;
    ghost var A, N := a.Int(), b.Int();
    Plain(b);
    UsedPositive(b);
    if b.sign == Neg || b.used == 0 { return BadValue; }
    var x := new MpInt();
    res := Mod(a, b, x);
    ResidueOfPositive(A, N);
    Remainder(A, N);
    var y := new MpInt.Copied(b);
    Parity(x);
    Parity(y);
    ghost var X := x.Int();
    ResidueDivisors(A, N, 1);
    GcdSides(1, X, N);
    if IsEven(x) && IsEven(y) {
      BothEven(X, N);
      return BadValue;
    }
    var one, C := Inverse(x, y);
    if one != Eq { return BadValue; }
    ghost var C0 := C.Int();
    AnyTrack(C0, X, N);
    Lift(C, b, X, C0 * X);
    Lower(C, b, X, C0 * X);
    if X != 0 { InverseOfResidue(A, N, C.Int(), C0); }
    Hand(C, c);
    return Okay;
  }

  /** Where b divides a there is no inverse (unless b is 1), so the general form is wrong there exactly for
      the powers of two above 1. */
  lemma WrongForPowersOfTwo(a: int, b: int)
    requires b > 1 && a % b == 0
    ensures !IsGcd(1, a, b)
    ensures forall c :: !Cong(a * c, 1, b)
    ensures OddPart(b) == 1 <==> exists k: nat :: b == Pow(2, k)
  {
    SelfDivides(b);
    DivModUnique(1, b, 0, 1);
    assert Divides(b, a) && !Divides(b, 1);
    var q := a / b;
    DivModDef(a, b);
    forall c ensures !Cong(a * c, 1, b) {
      MulAssoc(q, b, c);
      assert b * c == c * b;
      MulAssoc(q, c, b);
      if Cong(a * c, 1, b) {
        var k := CongElim(a * c, 1, b);
        MulDist(q * c, k, b);
        DividesIntro(b, 1, q * c - k);
      }
    }
    OddPartMeans(b);
    forall k: nat | b == Pow(2, k) ensures OddPart(b) == 1 { TwosOfProduct(1, k); }
  }

  /** For example: a = b = 2 is accepted. */
  lemma WrongExample()
    ensures OddPart(2) == 1 && 2 % 2 == 0 && !IsGcd(1, 2, 2)
  {
    WrongForPowersOfTwo(2, 2);
  }

  /** mp_invmod: the fast form for an odd modulus. */
  method InvModAny(a: MpInt, b: MpInt, c: MpInt) returns (res: Status)
    requires a.Valid() && b.Valid() && c.Valid()
    requires b.Int() > 0 && b.Int() % 2 == 1 ==> a.Int() % b.Int() != 0
    modifies c
    ensures c.Valid() && (old(b.Int()) <= 0 ==> res != Okay)
    ensures old(b.Int()) > 0 && old(a.Int()) % old(b.Int()) != 0 ==> (res == Okay <==> IsGcd(1, old(a.Int()), old(b.Int())))
    ensures old(b.Int()) > 0 && old(a.Int()) % old(b.Int()) != 0 && res == Okay ==>
      Cong(old(a.Int()) * c.Int(), if old(a.Int()) < 0 && old(b.Int()) % 2 == 1 then -1 else 1, old(b.Int()))
    ensures res == Okay && old(b.Int()) % 2 == 1 ==> FastSize(old(a.Int()), old(b.Int()), c.Int())
    ensures res == Okay && old(b.Int()) % 2 == 0 ==> 0 <= c.Int() < old(b.Int())
    ensures res != Okay ==> c.Int() == old(c.Int())
  {
    hide *;
    Plain(b);
    UsedPositive(b);
    if b.sign == Neg || b.used == 0 { return BadValue; }
    Parity(b);
    NotEven(b.Int());
    if IsOdd(b) {
      res := FastInvMod(a, b, c);
    } else {
      res := SlowInvMod(a, b, c);
    }
  }
}
