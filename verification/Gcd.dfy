/** mp_gcd and mp_exteuclid (bn_mp_gcd.c, bn_mp_exteuclid.c). */
module Gcd {
  import opened Arith
  import opened Digits
  import opened GcdSpec
  import opened LeastBezout
  import opened MpInts
  import opened MpAdd
  import opened MpShift
  import opened MpSmall
  import opened MpDiv
  import opened Mul

  /** mp_abs */
  method AbsCopy(a: MpInt, b: MpInt)
    requires a.Valid() && b.Valid()
    modifies b
    ensures b.Valid() && b.Int() == Abs(old(a.Int()))
  {
    MagBounds(a);
    Copy(a, b);
    MagBounds(b);
    b.sign := ZPos;
  }

  /** mp_neg in place. */
  method Negate(a: MpInt)
    requires a.Valid()
    modifies a`sign
    ensures a.Valid() && a.Int() == -old(a.Int())
  {
    MagBounds(a);
    a.sign := if a.used != 0 then (if a.sign == ZPos then Neg else ZPos) else ZPos;
  }

  /** Dividing out some of the trailing zeros. */
  method DropTwos(u: MpInt, k: nat, ghost odd: int, ghost e: nat)
    requires u.Valid() && u.sign == ZPos && u.Int() == odd * Pow(2, e) && odd > 0 && k <= e
    modifies u
    ensures u.Valid() && u.sign == ZPos && u.Int() == odd * Pow(2, e - k)
  {
    hide *;
    Plain(u);
    DropPower(odd, e, k);
    Div2d(u, k, u, null);
    SignIsPlain(u);
  }

  lemma DropPower(odd: int, e: nat, k: nat)
    requires k <= e && odd > 0
    ensures odd * Pow(2, e) / Pow(2, k) == odd * Pow(2, e - k) && (k == 0 ==> Pow(2, k) == 1)
  {
    PowAdd(2, e - k, k);
    MulAssoc(odd, Pow(2, e - k), Pow(2, k));
    DivModUnique(odd * Pow(2, e), Pow(2, k), odd * Pow(2, e - k), 0);
  }

  lemma SignIsPlain(u: MpInt)
    requires u.Valid() && (u.used == 0 || u.sign == ZPos)
    ensures u.sign == ZPos && u.Int() == u.Mag() >= 0
  {
    MagBounds(u);
  }

  /** All trailing zeros are divided out, as the code does in two steps. */
  method MakeOdd(u: MpInt, lsb: nat, k: nat)
    requires u.Valid() && u.sign == ZPos && u.Int() > 0 && lsb == Twos(u.Int()) && k <= lsb
    modifies u
    ensures u.Valid() && u.sign == ZPos && u.Int() == OddPart(old(u.Int()))
  {
    hide *;
    ghost var n := u.Int();
    OddPartMeans(n);
    if k > 0 { DropTwos(u, k, OddPart(n), lsb); }
    if lsb != k { DropTwos(u, lsb - k, OddPart(n), lsb - k); }
    PowNone2(OddPart(n));
  }

  lemma PowNone2(x: int)
    ensures x * Pow(2, 0) == x
  {}

  /** One subtraction, and out with the factors of two. */
  method Reduce(u: MpInt, v: MpInt)
    requires u != v && u.Valid() && v.Valid() && u.sign == ZPos && v.sign == ZPos
    requires u.Int() % 2 == 1 && v.Int() % 2 == 1 && 0 < u.Int() <= v.Int()
    modifies v
    ensures v.Valid() && v.sign == ZPos && 0 <= v.Int() < old(v.Int()) && (v.Int() == 0 || v.Int() % 2 == 1)
    ensures forall g :: IsGcd(g, u.Int(), v.Int()) <==> IsGcd(g, old(u.Int()), old(v.Int()))
  {
    hide *;
    ghost var m, n := u.Int(), v.Int();
    Plain(u);
    Plain(v);
    OrderByUsed(u, v);
    SSub(v, u, v);
    Unsigned(v);
    forall g ensures IsGcd(g, m, n) <==> IsGcd(g, m, n - m) {
      GcdShift(g, m, n, 1);
      OneTimes(m);
    }
    UsedPositive(v);
    var lsb := CntLsb(v);
    if v.used > 0 {
      OddPartMeans(n - m);
      OddPartSmaller(n - m);
      DropTwos(v, lsb, OddPart(n - m), lsb);
      PowNone2(OddPart(n - m));
      forall g ensures IsGcd(g, m, n - m) <==> IsGcd(g, m, v.Int()) {
        GcdOddPower(g, m, OddPart(n - m), Twos(n - m));
      }
    } else {
      DivideByOne(v.Mag());
      Div2d(v, lsb, v, null);
      SignIsPlain(v);
    }
  }

  lemma OneTimes(m: int)
    ensures 1 * m == m
  {}

  lemma UsedPositive(v: MpInt)
    requires v.Valid()
    ensures v.used > 0 <==> v.Int() != 0
  {
    MagBounds(v);
  }

  lemma OddPartSmaller(n: int)
    requires n > 0
    ensures 0 < OddPart(n) <= n
  {
    OddPartMeans(n);
    MulMono(1, Pow(2, Twos(n)), OddPart(n));
  }

  /** The binary loop on odd numbers. */
  method OddLoop(u: MpInt, v: MpInt)
    requires u != v && u.Valid() && v.Valid() && u.sign == ZPos && v.sign == ZPos
    requires u.Int() > 0 && v.Int() > 0 && u.Int() % 2 == 1 && v.Int() % 2 == 1
    modifies u, v
    ensures u.Valid() && u.sign == ZPos && IsGcd(u.Int(), old(u.Int()), old(v.Int()))
  {
    hide *;
    ghost var m, n := u.Int(), v.Int();
    forall g ensures IsGcd(g, m, n) <==> IsGcd(g, u.Int(), v.Int()) {}
    UsedPositive(v);
    while v.used != 0
      invariant u.Valid() && v.Valid() && u.sign == ZPos && v.sign == ZPos
      invariant u.Int() > 0 && u.Int() % 2 == 1 && v.Int() >= 0 && (v.Int() == 0 || v.Int() % 2 == 1)
      invariant v.used > 0 <==> v.Int() != 0
      invariant forall g :: IsGcd(g, u.Int(), v.Int()) <==> IsGcd(g, m, n)
      decreases u.Int() + v.Int()
    {
      Plain(u);
      Plain(v);
      var r := CmpMag(u, v);
      OrderOf(u.Mag(), v.Mag());
      if r == Gt { Swap(u, v); }
      ghost var p, q := u.Int(), v.Int();
      Reduce(u, v);
      UsedPositive(v);
    }
    GcdWithZero(u.Int());
    SameGcd(u.Int(), m, n, v.Int());
  }

  lemma SameGcd(u: int, m: int, n: int, v: int)
    requires v == 0 && u > 0 && IsGcd(u, u, 0) && forall g :: IsGcd(g, u, v) <==> IsGcd(g, m, n)
    ensures IsGcd(u, m, n)
  {}

  lemma OrderOf(x: int, y: int)
    ensures Compare(x, y) == Gt <==> x > y
  {}

  method Swap(u: MpInt, v: MpInt)
    requires u != v && u.Valid() && v.Valid()
    modifies u, v
    ensures u.Valid() && v.Valid() && u.Int() == old(v.Int()) && v.Int() == old(u.Int())
    ensures u.sign == old(v.sign) && v.sign == old(u.sign)
    ensures forall g :: IsGcd(g, u.Int(), v.Int()) <==> IsGcd(g, old(u.Int()), old(v.Int()))
  {
    ghost var m, n := u.Int(), v.Int();
    forall g ensures IsGcd(g, m, n) <==> IsGcd(g, n, m) { GcdShift(g, m, n, 0); }
    Exch(u, v);
  }

  /** The powers of two: the smaller one is common, the difference is not shared by the odd other part. */
  lemma PutTwosBack(g: int, a: int, b: int, k: nat)
    requires a > 0 && b > 0 && IsGcd(g, OddPart(a), OddPart(b)) && k == (if Twos(a) < Twos(b) then Twos(a) else Twos(b))
    ensures IsGcd(g * Pow(2, k), a, b)
  {
    OddPartMeans(a);
    OddPartMeans(b);
    var i, j := Twos(a) - k, Twos(b) - k;
    var u, v := OddPart(a), OddPart(b);
    PowNone2(u);
    PowNone2(v);
    if i == 0 {
      GcdOddPower(g, u, v, j);
    } else {
      GcdShift(g, u, v, 0);
      GcdOddPower(g, v, u, i);
      GcdShift(g, v, u * Pow(2, i), 0);
    }
    GcdScale(g, u * Pow(2, i), v * Pow(2, j), k);
    PowAdd(2, i, k);
    PowAdd(2, j, k);
    MulAssoc(u, Pow(2, i), Pow(2, k));
    MulAssoc(v, Pow(2, j), Pow(2, k));
  }

  /** mp_gcd */
  method BinaryGcd(a: MpInt, b: MpInt, c: MpInt)
    requires a.Valid() && b.Valid() && c.Valid()
    modifies c
    ensures c.Valid() && IsGcd(c.Int(), old(a.Int()), old(b.Int()))
  {
    hide *;
    ghost var A, D := a.Int(), b.Int();
    UsedPositive(a);
    UsedPositive(b);
    if a.used == 0 {
      ZeroGcd(A, D);
      AbsCopy(b, c);
      return;
    }
    if b.used == 0 {
      ZeroGcd(A, D);
      AbsCopy(a, c);
      return;
    }
    var u := Magnitude(a);
    var v := Magnitude(b);
    Plain(u);
    Plain(v);
    AbsPositive(A);
    AbsPositive(D);
    UsedPositive(u);
    UsedPositive(v);
    var uLsb := CntLsb(u);
    var vLsb := CntLsb(v);
    var k := if uLsb < vLsb then uLsb else vLsb;
    MakeOdd(u, uLsb, k);
    MakeOdd(v, vLsb, k);
    OddPartMeans(Abs(A));
    OddPartMeans(Abs(D));
    OddLoop(u, v);
    PutTwosBack(u.Int(), Abs(A), Abs(D), k);
    AbsGcd(u.Int() * Pow(2, k), A, D);
    ProductOrder(Pow(2, k), u.Int());
    Mul2d(u, k, c);
    GcdPlain(c.Int(), A, D);
    Plain(c);
  }

  lemma ProductOrder(x: int, y: int)
    ensures x * y == y * x
  {}

  lemma AbsPositive(a: int)
    ensures a != 0 ==> Abs(a) > 0
  {}

  lemma ZeroGcd(a: int, b: int)
    ensures a == 0 ==> IsGcd(Abs(b), a, b)
    ensures b == 0 ==> IsGcd(Abs(a), a, b)
  {
    GcdWithZero(a);
    GcdWithZero(b);
  }

  lemma AbsGcd(g: int, a: int, b: int)
    ensures IsGcd(g, Abs(a), Abs(b)) <==> IsGcd(g, a, b)
  {
    GcdOfMagnitudes(g, a, b);
  }

  lemma GcdPlain(g: int, a: int, b: int)
    requires IsGcd(g, a, b)
    ensures g >= 0
  {}

  /** z is this combination of a and b. */
  ghost predicate Bezout(a: int, b: int, x: int, y: int, z: int) { a * x + b * y == z }

  /** Two pairs with the same common divisors. */
  ghost predicate SameDivisors(u: int, v: int, a: int, b: int) { forall g :: IsGcd(g, u, v) <==> IsGcd(g, a, b) }

  lemma RowStep(a: int, b: int, u1: int, u2: int, u3: int, v1: int, v2: int, v3: int, q: int)
    requires Bezout(a, b, u1, u2, u3) && Bezout(a, b, v1, v2, v3)
    ensures Bezout(a, b, u1 - v1 * q, u2 - v2 * q, u3 - v3 * q)
  {
    MulDist(a * v1, b * v2, q);
    MulAssoc(a, v1, q);
    MulAssoc(b, v2, q);
    assert a * (u1 - v1 * q) == a * u1 - a * (v1 * q);
    assert b * (u2 - v2 * q) == b * u2 - b * (v2 * q);
  }

  /** t = u - v * q */
  method SubMul(u: MpInt, v: MpInt, q: MpInt, tmp: MpInt, t: MpInt)
    requires u.Valid() && v.Valid() && q.Valid() && tmp.Valid() && t.Valid() && tmp !in {u, v, q, t} && t !in {u, v, q}
    modifies tmp, t
    ensures tmp.Valid() && t.Valid() && t.Int() == u.Int() - v.Int() * q.Int()
  {
    hide *;
    Plain(tmp);
    Multiply(v, q, tmp);
    Plain(tmp);
    Plain(t);
    Sub(u, tmp, t);
  }

  /** Three numbers copied at once. */
  method CopyRow(x: MpInt, y: MpInt, z: MpInt, x': MpInt, y': MpInt, z': MpInt)
    requires x.Valid() && y.Valid() && z.Valid() && x'.Valid() && y'.Valid() && z'.Valid()
    requires x' !in {x, y, z, y', z'} && y' !in {x, y, z, z'} && z' !in {x, y, z}
    modifies x', y', z'
    ensures x'.Valid() && y'.Valid() && z'.Valid()
    ensures x'.Int() == x.Int() && y'.Int() == y.Int() && z'.Int() == z.Int()
  {
    hide *;
    Plain(x'); Plain(y'); Plain(z');
    Copy(x, x');
    Copy(y, y');
    Copy(z, z');
  }

  lemma FirstRows(a: int, b: int)
    ensures Bezout(a, b, 1, 0, a) && Bezout(a, b, 0, 1, b) && SameDivisors(a, b, a, b)
  {}

  /** One round: the remainder has the same common divisors with the divisor, and is smaller. */
  lemma DivisorsStep(x: int, y: int, q: int, a: int, b: int)
    requires y != 0 && q == Quot(x, y) && SameDivisors(x, y, a, b)
    ensures SameDivisors(y, x - y * q, a, b) && Abs(x - y * q) < Abs(y)
  {
    RemainderGcd(x, y, 0);
    forall g ensures IsGcd(g, y, x - y * q) <==> IsGcd(g, x, y) { RemainderGcd(x, y, g); }
  }

  /** The remainder has the same common divisors with the divisor. */
  lemma RemainderGcd(a: int, b: int, g: int)
    requires b != 0
    ensures Rem(a, b) == a - b * Quot(a, b) && Abs(Rem(a, b)) < Abs(b)
    ensures IsGcd(g, b, Rem(a, b)) <==> IsGcd(g, a, b)
  {
    QuotRem(a, b);
    GcdShift(g, b, a, Quot(a, b));
    GcdShift(g, a, b, 0);
  }

  method SetSmall(c: MpInt, d: nat)
    requires c.Valid() && d < 2
    modifies c
    ensures c.Valid() && c.Int() == d
  {
    DivModUnique(d, B, 0, d);
    Set(c, d);
  }

  /** u = v, v = t */
  method ShiftRows(u1: MpInt, u2: MpInt, u3: MpInt, v1: MpInt, v2: MpInt, v3: MpInt, t1: MpInt, t2: MpInt, t3: MpInt)
    requires u1.Valid() && u2.Valid() && u3.Valid() && v1.Valid() && v2.Valid() && v3.Valid()
    requires t1.Valid() && t2.Valid() && t3.Valid()
    requires u1 !in {u2, u3, v1, v2, v3, t1, t2, t3} && u2 !in {u3, v1, v2, v3, t1, t2, t3} && u3 !in {v1, v2, v3, t1, t2, t3}
    requires v1 !in {v2, v3, t1, t2, t3} && v2 !in {v3, t1, t2, t3} && v3 !in {t1, t2, t3}
    modifies u1, u2, u3, v1, v2, v3
    ensures u1.Valid() && u2.Valid() && u3.Valid() && v1.Valid() && v2.Valid() && v3.Valid()
    ensures u1.Int() == old(v1.Int()) && u2.Int() == old(v2.Int()) && u3.Int() == old(v3.Int())
    ensures v1.Int() == t1.Int() && v2.Int() == t2.Int() && v3.Int() == t3.Int()
  {
    hide *;
    CopyRow(v1, v2, v3, u1, u2, u3);
    CopyRow(t1, t2, t3, v1, v2, v3);
  }

  /** q = u3 / v3 and (t1, t2, t3) = (u1, u2, u3) - (v1, v2, v3) * q */
  method SubMulRow(u1: MpInt, u2: MpInt, u3: MpInt, v1: MpInt, v2: MpInt, v3: MpInt, q: MpInt, tmp: MpInt, t1: MpInt, t2: MpInt, t3: MpInt,
      ghost a: int, ghost b: int)
    requires u1.Valid() && u2.Valid() && u3.Valid() && v1.Valid() && v2.Valid() && v3.Valid() && q.Valid()
    requires tmp.Valid() && t1.Valid() && t2.Valid() && t3.Valid()
    requires tmp !in {u1, u2, u3, v1, v2, v3, q, t1, t2, t3} && t1 !in {u1, u2, u3, v1, v2, v3, q, t2, t3}
    requires t2 !in {u1, u2, u3, v1, v2, v3, q, t3} && t3 !in {u1, u2, u3, v1, v2, v3, q}
    requires Bezout(a, b, u1.Int(), u2.Int(), u3.Int()) && Bezout(a, b, v1.Int(), v2.Int(), v3.Int())
    requires v3.Int() != 0 && SameDivisors(u3.Int(), v3.Int(), a, b) && q !in {u1, u2, u3, v1, v2, v3}
    requires Rows(a, b, u1.Int(), u2.Int(), u3.Int(), v1.Int(), v2.Int(), v3.Int())
    modifies q, tmp, t1, t2, t3
    ensures q.Valid() && tmp.Valid() && t1.Valid() && t2.Valid() && t3.Valid()
    ensures Bezout(a, b, t1.Int(), t2.Int(), t3.Int())
    ensures SameDivisors(v3.Int(), t3.Int(), a, b) && Abs(t3.Int()) < Abs(v3.Int())
    ensures Rows(a, b, v1.Int(), v2.Int(), v3.Int(), t1.Int(), t2.Int(), t3.Int())
  {
    hide *;
    var err := Div(u3, v3, q, null);
    RowStep(a, b, u1.Int(), u2.Int(), u3.Int(), v1.Int(), v2.Int(), v3.Int(), q.Int());
    DivisorsStep(u3.Int(), v3.Int(), q.Int(), a, b);
    RowsStep(a, b, u1.Int(), u2.Int(), u3.Int(), v1.Int(), v2.Int(), v3.Int());
    SubMul(u1, v1, q, tmp, t1);
    SubMul(u2, v2, q, tmp, t2);
    SubMul(u3, v3, q, tmp, t3);
  }

  /** The end of a run: the sign is put right and the results are handed out. */
  method HandOut(x: MpInt, U: MpInt?, flip: bool)
    requires x.Valid() && (U != null ==> x != U)
    modifies x, U
    ensures U != null ==> U.Valid() && U.Int() == if flip then -old(x.Int()) else old(x.Int())
  {
    if flip { Negate(x); }
    if U != null { Exch(U, x); }
  }

  /** U1 and U2 are the least coefficients of the greatest common divisor, whether or not that is asked for. */
  ghost predicate Combine(a: int, b: int, x: int, y: int) { exists g :: IsGcd(g, a, b) && IsLeast(a, b, g, x, y) }

  /** mp_exteuclid: a * U1 + b * U2 == U3 == gcd(a, b), and the coefficients are the least ones, of which there is
      only one pair (LeastUnique).  Any result may be left out. */
  method ExtEuclid(a: MpInt, b: MpInt, U1: MpInt?, U2: MpInt?, U3: MpInt?)
    requires a.Valid() && b.Valid()
    requires (U1 != null ==> U1 != U2 && U1 != U3) && (U2 != null ==> U2 != U3)
    modifies U1, U2, U3
    ensures (U1 != null ==> U1.Valid()) && (U2 != null ==> U2.Valid())
    ensures U3 != null ==> U3.Valid() && IsGcd(U3.Int(), old(a.Int()), old(b.Int()))
    ensures U1 != null ==> exists y :: Combine(old(a.Int()), old(b.Int()), U1.Int(), y)
    ensures U2 != null ==> exists x :: Combine(old(a.Int()), old(b.Int()), x, U2.Int())
    ensures U1 != null && U2 != null ==> Combine(old(a.Int()), old(b.Int()), U1.Int(), U2.Int())
    ensures U1 != null && U2 != null && U3 != null ==> old(a.Int()) * U1.Int() + old(b.Int()) * U2.Int() == U3.Int()
  {
    hide *;
    ghost var A, D := a.Int(), b.Int();
    var u1, u2, u3 := RunEuclid(a, b);
    Plain(u3);
    var flip := u3.sign == Neg;
    ghost var x, y, z := u1.Int(), u2.Int(), u3.Int();
    FlipRow(A, D, x, y, z);
    ghost var X, Y := if flip then -x else x, if flip then -y else y;
    assert Combine(A, D, X, Y);
    HandOut(u1, U1, flip);
    HandOut(u2, U2, flip);
    HandOut(u3, U3, flip);
    assert U1 != null ==> Combine(A, D, U1.Int(), Y);
    assert U2 != null ==> Combine(A, D, X, U2.Int());
  }

  lemma FlipRow(a: int, b: int, x: int, y: int, z: int)
    requires Bezout(a, b, x, y, z) && IsGcd(Abs(z), a, b) && LastRow(a, b, x, y, z)
    ensures a * x + b * y == z
    ensures a * (-x) + b * (-y) == -z
    ensures IsGcd(if z < 0 then -z else z, a, b)
    ensures z < 0 ==> Combine(a, b, -x, -y)
    ensures z >= 0 ==> Combine(a, b, x, y)
  {
    hide LastRow, IsLeast;
    LastIsLeast(a, b, x, y, z);
  }

  /** The loop of mp_exteuclid. */
  method RunEuclid(a: MpInt, b: MpInt) returns (u1: MpInt, u2: MpInt, u3: MpInt)
    requires a.Valid() && b.Valid()
    ensures fresh(u1) && fresh(u2) && fresh(u3) && u1 != u2 && u1 != u3 && u2 != u3
    ensures u1.Valid() && u2.Valid() && u3.Valid()
    ensures Bezout(a.Int(), b.Int(), u1.Int(), u2.Int(), u3.Int()) && IsGcd(Abs(u3.Int()), a.Int(), b.Int())
    ensures LastRow(a.Int(), b.Int(), u1.Int(), u2.Int(), u3.Int())
  {
    hide *;
    ghost var A, D := a.Int(), b.Int();
    u1 := new MpInt();
    u2 := new MpInt();
    u3 := new MpInt.Copied(a);
    var v1 := new MpInt();
    var v2 := new MpInt();
    var v3 := new MpInt.Copied(b);
    SetSmall(u1, 1);
    SetSmall(v2, 1);
    FirstRows(A, D);
    RowsBegin(A, D);
    EuclidLoop(u1, u2, u3, v1, v2, v3, A, D);
  }

  method EuclidLoop(u1: MpInt, u2: MpInt, u3: MpInt, v1: MpInt, v2: MpInt, v3: MpInt, ghost a: int, ghost b: int)
    requires u1.Valid() && u2.Valid() && u3.Valid() && v1.Valid() && v2.Valid() && v3.Valid()
    requires u1 !in {u2, u3, v1, v2, v3} && u2 !in {u3, v1, v2, v3} && u3 !in {v1, v2, v3} && v1 !in {v2, v3} && v2 != v3
    requires Bezout(a, b, u1.Int(), u2.Int(), u3.Int()) && Bezout(a, b, v1.Int(), v2.Int(), v3.Int())
    requires SameDivisors(u3.Int(), v3.Int(), a, b)
    requires Rows(a, b, u1.Int(), u2.Int(), u3.Int(), v1.Int(), v2.Int(), v3.Int())
    modifies u1, u2, u3, v1, v2, v3
    ensures u1.Valid() && u2.Valid() && u3.Valid()
    ensures Bezout(a, b, u1.Int(), u2.Int(), u3.Int()) && IsGcd(Abs(u3.Int()), a, b)
    ensures LastRow(a, b, u1.Int(), u2.Int(), u3.Int())
  {
    hide *;
    var t1 := new MpInt();
    var t2 := new MpInt();
    var t3 := new MpInt();
    var q := new MpInt();
    var tmp := new MpInt();
    UsedPositive(v3);
    while v3.used != 0
      invariant u1.Valid() && u2.Valid() && u3.Valid() && v1.Valid() && v2.Valid() && v3.Valid()
      invariant t1.Valid() && t2.Valid() && t3.Valid() && q.Valid() && tmp.Valid()
      invariant Bezout(a, b, u1.Int(), u2.Int(), u3.Int()) && Bezout(a, b, v1.Int(), v2.Int(), v3.Int())
      invariant v3.used > 0 <==> v3.Int() != 0
      invariant SameDivisors(u3.Int(), v3.Int(), a, b)
      invariant Rows(a, b, u1.Int(), u2.Int(), u3.Int(), v1.Int(), v2.Int(), v3.Int())
      decreases Abs(v3.Int())
      modifies u1, u2, u3, v1, v2, v3, t1, t2, t3, q, tmp
    {
      SubMulRow(u1, u2, u3, v1, v2, v3, q, tmp, t1, t2, t3, a, b);
      ShiftRows(u1, u2, u3, v1, v2, v3, t1, t2, t3);
      UsedPositive(v3);
    }
    GcdIsLast(u3.Int(), v3.Int(), a, b);
    RowsEnd(a, b, u1.Int(), u2.Int(), u3.Int(), v1.Int(), v2.Int(), v3.Int());
  }

  lemma GcdIsLast(u: int, v: int, a: int, b: int)
    requires v == 0 && SameDivisors(u, v, a, b)
    ensures IsGcd(Abs(u), a, b)
  {
    GcdWithZero(u);
  }
}
