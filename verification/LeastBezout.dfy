/** Which of the many pairs with a * x + b * y == gcd(a, b) mp_exteuclid finds: the least one. */
module LeastBezout {
  import opened Arith
  import opened GcdSpec
  import opened MpDiv
  import opened Primes

  function Sign(a: int): int { if a < 0 then -1 else 1 }

  predicate HasLeast(a: int, b: int) { a != 0 && b != 0 && Abs(a) != Abs(b) }

  /** No coefficient is above half of what the other number leaves room for.  Where one number is zero or both have
      the same magnitude there is no such pair, and only one coefficient is not zero. */
  ghost predicate IsLeast(a: int, b: int, g: int, x: int, y: int) {
    && a * x + b * y == g
    && if b == 0 then x == Sign(a) && y == 0
       else if a == 0 || Abs(a) == Abs(b) then x == 0 && y == Sign(b)
       else 2 * Abs(x) * g <= Abs(b) && 2 * Abs(y) * g <= Abs(a)
  }

  // ----- One column of the rows (u1, u2, u3) and (v1, v2, v3) -----

  predicate Opposed(x: int, y: int) { (x <= 0 <= y) || (y <= 0 <= x) }

  predicate Alike(x: int, y: int) { (x <= 0 && y <= 0) || (x >= 0 && y >= 0) }

  /** Coefficients of remainders of the same sign have different signs, and the other way round. */
  predicate Alternate(x: int, y: int, s: int, t: int) {
    s != 0 && t != 0 ==> if (s < 0) == (t < 0) then Opposed(x, y) else Alike(x, y)
  }

  /** Two coefficients x and y of the remainders s and t; n is the magnitude of the number they do not belong to. */
  predicate Column(x: int, y: int, s: int, t: int, n: int) {
    Alternate(x, y, s, t) && Abs(y) * Abs(s) + Abs(x) * Abs(t) == n
  }

  lemma OpposedSum(x: int, y: int, q: int)
    requires q >= 0 && Opposed(x, y)
    ensures Abs(x - y * q) == Abs(x) + q * Abs(y) && Opposed(y, x - y * q)
  {
    if y >= 0 { MulNonNegative(y, q); } else { MulNonNegative(-y, q); assert (-y) * q == -(y * q); }
  }

  lemma AlikeSum(x: int, y: int, q: int)
    requires q <= 0 && Alike(x, y)
    ensures Abs(x - y * q) == Abs(x) + (-q) * Abs(y) && Alike(y, x - y * q)
  {
    assert (-y) * (-q) == y * q && y * (-q) == -(y * q);
    if y >= 0 { MulNonNegative(y, -q); } else { MulNonNegative(-y, -q); }
  }

  /** Truncating division in magnitudes. */
  lemma Magnitudes(s: int, t: int)
    requires t != 0
    ensures var q, r := Quot(s, t), s - t * Quot(s, t);
      && Abs(s) == Abs(q) * Abs(t) + Abs(r) && Abs(r) < Abs(t) && (r != 0 ==> s != 0 && (r < 0) == (s < 0))
      && (q != 0 ==> (q < 0) == ((s < 0) != (t < 0)))
  {
    QuotRem(s, t);
    DivModDef(Abs(s), Abs(t));
    var q := Abs(s) / Abs(t);
    if q < 0 { MulMono(q, -1, Abs(t)); }
  }

  /** The new coefficient is as large as it can be, and its sign is settled. */
  lemma Widens(x: int, y: int, s: int, t: int)
    requires t != 0 && Alternate(x, y, s, t)
    ensures var q := Quot(s, t); var z := x - y * q;
      Abs(z) == Abs(x) + Abs(q) * Abs(y) && Alternate(y, z, t, s - t * q)
  {
    hide Quot, Opposed, Alike;
    var q := Quot(s, t);
    Magnitudes(s, t);
    if q == 0 {
      assert y * q == 0 && t * q == 0 && Abs(q) * Abs(y) == 0;
      Swapped(x, y);
    } else if (s < 0) == (t < 0) {
      OpposedSum(x, y, q);
    } else {
      AlikeSum(x, y, q);
    }
  }

  lemma Swapped(x: int, y: int)
    ensures Opposed(x, y) <==> Opposed(y, x)
    ensures Alike(x, y) <==> Alike(y, x)
  {}

  /** s == q * t + r and z == x + q * y leave y * s + x * t as it was. */
  lemma CrossSum(x: int, y: int, s: int, t: int, q: int, r: int, z: int)
    requires s == q * t + r && z == x + q * y
    ensures z * t + y * r == y * s + x * t
  {
    MulDist(x, q * y, t);
    assert y * (q * t + r) == y * (q * t) + y * r;
    assert (q * y) * t == y * (q * t);
  }

  lemma ColumnStep(x: int, y: int, s: int, t: int, n: int)
    requires t != 0 && Column(x, y, s, t, n)
    ensures Column(y, x - y * Quot(s, t), t, s - t * Quot(s, t), n)
  {
    hide Quot, Alternate;
    var q := Quot(s, t);
    Widens(x, y, s, t);
    Magnitudes(s, t);
    CrossSum(Abs(x), Abs(y), Abs(s), Abs(t), Abs(q), Abs(s - t * q), Abs(x - y * q));
  }

  /** A last quotient of two or more leaves y half of the room. */
  lemma LastColumn(x: int, y: int, s: int, t: int, n: int)
    requires t != 0 && Column(x, y, s, t, n) && s - t * Quot(s, t) == 0 && Abs(s) > Abs(t)
    ensures 2 * Abs(y) * Abs(t) <= n
  {
    hide Quot, Alternate;
    var q := Abs(Quot(s, t));
    Magnitudes(s, t);
    if q <= 1 { MulMono(q, 1, Abs(t)); }
    HalfOfRoom(Abs(x), Abs(y), Abs(t), q);
  }

  lemma HalfOfRoom(x: int, y: int, t: int, q: int)
    requires x >= 0 && y >= 0 && t >= 0 && q >= 2
    ensures 2 * y * t <= y * (q * t) + x * t
  {
    MulNonNegative(x, t);
    MulNonNegative(y, t);
    MulMono(2, q, y * t);
    MulAssoc(2, y, t);
    assert y * (q * t) == q * (y * t);
  }

  // ----- The two rows -----

  /** The row that mp_exteuclid ends with, before the sign is put right. */
  ghost predicate LastRow(a: int, b: int, x: int, y: int, z: int) {
    if b == 0 then x == 1 && y == 0 && z == a
    else if a == 0 || Abs(a) == Abs(b) then x == 0 && y == 1 && z == b
    else 2 * Abs(x) * Abs(z) <= Abs(b) && 2 * Abs(y) * Abs(z) <= Abs(a)
  }

  predicate AtStart(a: int, b: int, x: int, y: int, s: int, x': int, y': int, t: int) {
    x == 1 && y == 0 && s == a && x' == 0 && y' == 1 && t == b
  }

  ghost predicate Rows(a: int, b: int, x: int, y: int, s: int, x': int, y': int, t: int) {
    && Column(x, x', s, t, Abs(b)) && Column(y, y', s, t, Abs(a))
    && (t == 0 ==> LastRow(a, b, x, y, s))
    && (t != 0 ==> (Abs(s) > Abs(t) && HasLeast(a, b)) || AtStart(a, b, x, y, s, x', y', t))
  }

  lemma RowsBegin(a: int, b: int)
    ensures Rows(a, b, 1, 0, a, 0, 1, b)
  {}

  lemma RowsEnd(a: int, b: int, x: int, y: int, s: int, x': int, y': int, t: int)
    requires t == 0 && Rows(a, b, x, y, s, x', y', t)
    ensures LastRow(a, b, x, y, s)
  {}

  lemma RowsStep(a: int, b: int, x: int, y: int, s: int, x': int, y': int, t: int)
    requires t != 0 && Rows(a, b, x, y, s, x', y', t)
    ensures var q := Quot(s, t); Rows(a, b, x', y', t, x - x' * q, y - y' * q, s - t * q)
  {
    hide Quot, Column;
    ColumnStep(x, x', s, t, Abs(b));
    ColumnStep(y, y', s, t, Abs(a));
    Magnitudes(s, t);
    var q := Quot(s, t);
    if Abs(s) <= Abs(t) { NoMultiple(Abs(q), Abs(s), Abs(t), Abs(s - t * q)); }
    if s - t * q == 0 && Abs(s) > Abs(t) {
      LastColumn(x, x', s, t, Abs(b));
      LastColumn(y, y', s, t, Abs(a));
    }
  }

  lemma NoMultiple(q: int, s: int, t: int, r: int)
    requires s == q * t + r && 0 <= r < t && 0 <= s <= t
    ensures r == 0 <==> s == 0 || s == t
  {
    if q >= 2 { MulMono(2, q, t); }
    if q <= -1 { MulMono(q, -1, t); }
  }

  // ----- There is only one least pair -----

  /** Both numbers in units of their greatest common divisor. */
  lemma CommonUnit(a: int, b: int, g: int) returns (a': int, b': int)
    requires IsGcd(g, a, b) && a != 0
    ensures g > 0 && a == a' * g && b == b' * g
  {
    if g == 0 { NotBeyond(a, b); }
    SelfDivides(g);
    a' := DividesElim(g, a);
    b' := DividesElim(g, b);
  }

  lemma NotBeyond(a: int, b: int)
    requires a != 0
    ensures !IsGcd(0, a, b)
  {
    var d := Abs(a) + Abs(b) + 1;
    DividesZero(d);
    if Divides(d, a) {
      DividesNegated(d, a);
      DividesSmaller(d, Abs(a));
    }
  }

  /** Two pairs for numbers without a common divisor differ by a multiple of these numbers. */
  lemma Difference(a: int, b: int, x: int, y: int, x': int, y': int) returns (k: int)
    requires a * x + b * y == 1 && a * x' + b * y' == 1 && b != 0
    ensures x - x' == k * b && y' - y == k * a
  {
    var d, e := x - x', y' - y;
    k := x * e + y * d;
    assert a * d == b * e by { assert a * d == a * x - a * x' && b * e == b * y' - b * y; }
    assert d * (a * x + b * y) == x * (a * d) + b * (y * d);
    assert x * (b * e) + b * (y * d) == k * b;
    assert b * e == b * (k * a) by { assert a * (k * b) == b * (k * a); }
    CancelFactor(b, e, k * a);
  }

  lemma CancelFactor(b: int, x: int, y: int)
    requires b != 0 && b * x == b * y
    ensures x == y
  {
    assert b * (x - y) == 0;
  }

  lemma {:induction false} LeastOfUnits(a: int, b: int, x: int, y: int, x': int, y': int)
    requires a * x + b * y == 1 && a * x' + b * y' == 1 && b != 0
    requires 2 * Abs(x) <= Abs(b) && 2 * Abs(y) <= Abs(a) && 2 * Abs(x') <= Abs(b) && 2 * Abs(y') <= Abs(a)
    ensures x == x' && y == y'
  {
    var k := Difference(a, b, x, y, x', y');
    if k > 1 { MulMono(2, k, Abs(b)); FarApart(k, b); }
    if k < -1 { MulMono(2, -k, Abs(b)); FarApart(k, b); }
    if k == 1 || k == -1 { Even(a, b, x, y); }
  }

  lemma FarApart(k: int, b: int)
    ensures Abs(k * b) == Abs(k) * Abs(b)
  {
    assert (-k) * b == -(k * b) && k * (-b) == -(k * b) && (-k) * (-b) == k * b;
    if k >= 0 && b >= 0 { MulNonNegative(k, b); }
    if k >= 0 && b < 0 { MulNonNegative(k, -b); }
    if k < 0 && b >= 0 { MulNonNegative(-k, b); }
    if k < 0 && b < 0 { MulNonNegative(-k, -b); }
  }

  lemma Even(a: int, b: int, x: int, y: int)
    requires Abs(b) == 2 * Abs(x) && Abs(a) == 2 * Abs(y)
    ensures a * x + b * y != 1
  {
    var i := EvenProduct(a, x, y);
    var j := EvenProduct(b, y, x);
  }

  lemma EvenProduct(a: int, x: int, y: int) returns (h: int)
    requires Abs(a) == 2 * Abs(y)
    ensures a * x == 2 * h
  {
    h := if a == 2 * y then y * x else -(y * x);
    if a == 2 * y { assert (2 * y) * x == 2 * (y * x); } else { assert (-2 * y) * x == -2 * (y * x); }
  }

  /** The coefficients that mp_exteuclid finds are determined by the two numbers. */
  lemma LeastUnique(a: int, b: int, g: int, x: int, y: int, x': int, y': int)
    requires IsGcd(g, a, b) && IsLeast(a, b, g, x, y) && IsLeast(a, b, g, x', y')
    ensures x == x' && y == y'
  {
    hide IsGcd;
    if HasLeast(a, b) {
      var a', b' := CommonUnit(a, b, g);
      InUnits(a', b', g, x, y);
      InUnits(a', b', g, x', y');
      LeastOfUnits(a', b', x, y, x', y');
    }
  }

  lemma SumOfUnits(u: int, v: int, g: int)
    requires g > 0 && u * g + v * g == g
    ensures u + v == 1
  {
    MulDist(u, v, g);
    MulCancel(u + v, 1, g);
  }

  lemma HalfOfUnits(a: int, g: int, y: int)
    requires g > 0 && 2 * Abs(y) * g <= Abs(a * g)
    ensures 2 * Abs(y) <= Abs(a)
  {
    FarApart(a, g);
    MulCancel(2 * Abs(y), Abs(a), g);
  }

  lemma InUnits(a: int, b: int, g: int, x: int, y: int)
    requires g > 0 && (a * g) * x + (b * g) * y == g && 2 * Abs(x) * g <= Abs(b * g) && 2 * Abs(y) * g <= Abs(a * g)
    ensures a * x + b * y == 1 && 2 * Abs(x) <= Abs(b) && 2 * Abs(y) <= Abs(a)
  {
    assert (a * g) * x == (a * x) * g && (b * g) * y == (b * y) * g;
    SumOfUnits(a * x, b * y, g);
    HalfOfUnits(b, g, x);
    HalfOfUnits(a, g, y);
  }

  /** The sign of the last row is put right. */
  lemma LastIsLeast(a: int, b: int, x: int, y: int, z: int)
    requires LastRow(a, b, x, y, z) && a * x + b * y == z && IsGcd(Abs(z), a, b)
    ensures z < 0 ==> IsLeast(a, b, Abs(z), -x, -y)
    ensures z >= 0 ==> IsLeast(a, b, Abs(z), x, y)
  {
    hide IsGcd;
    assert a * (-x) + b * (-y) == -z;
    if z == 0 && b == 0 { assert a == 0; }
  }
}
