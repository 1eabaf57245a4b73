/** Powers and the few facts about products that the solver needs to be told. */
module Arith {

  function Pow(b: int, n: nat): (p: int)
    ensures b > 0 ==> p > 0
  {
    if n == 0 then 1 else b * Pow(b, n - 1)
  }

  lemma {:induction false} PowPositive(b: int, n: nat)
    requires b > 0
    ensures Pow(b, n) > 0
    decreases n
  {
    if n > 0 { PowPositive(b, n - 1); MulPositive(b, Pow(b, n - 1)); }
  }

  lemma {:induction false} PowAdd(b: int, m: nat, n: nat)
    ensures Pow(b, m + n) == Pow(b, m) * Pow(b, n)
    decreases m
  {
    if m > 0 {
      PowAdd(b, m - 1, n);
      MulAssoc(b, Pow(b, m - 1), Pow(b, n));
    }
  }

  lemma {:induction false} PowMono(b: int, m: nat, n: nat)
    requires b > 0 && m <= n
    ensures Pow(b, m) <= Pow(b, n)
  {
    PowAdd(b, m, n - m);
    PowPositive(b, m);
    PowPositive(b, n - m);
    MulMono(1, Pow(b, n - m), Pow(b, m));
  }

  lemma MulPositive(a: int, b: int)
    requires a > 0 && b > 0
    ensures a * b > 0
  {}

  lemma MulNonNegative(a: int, b: int)
    requires a >= 0 && b >= 0
    ensures a * b >= 0
  {}

  lemma MulAssoc(a: int, b: int, c: int)
    ensures (a * b) * c == a * (b * c)
  {}

  lemma MulDist(a: int, b: int, c: int)
    ensures (a + b) * c == a * c + b * c
    ensures (a - b) * c == a * c - b * c
  {}

  lemma MulMono(a: int, b: int, c: int)
    requires a <= b && c >= 0
    ensures a * c <= b * c
  {}

  lemma MulMonoStrict(a: int, b: int, c: int)
    requires a < b && c > 0
    ensures a * c < b * c
  {}

  /** Cancelling a positive factor. */
  lemma MulCancel(a: int, b: int, c: int)
    requires c > 0
    ensures a * c < b * c ==> a < b
    ensures a * c <= b * c ==> a <= b
    ensures a * c == b * c ==> a == b
  {
    if a >= b { MulMono(b, a, c); }
    if b >= a { MulMono(a, b, c); }
    if a > b { MulMonoStrict(b, a, c); }
    if b > a { MulMonoStrict(a, b, c); }
  }

  /** Quotient and remainder are determined by their defining property. */
  lemma DivModUnique(n: int, d: int, q: int, r: int)
    requires d > 0 && n == q * d + r && 0 <= r < d
    ensures n / d == q && n % d == r
  {
    var q', r' := n / d, n % d;
    assert n == d * q' + r';
    MulDist(q, q', d);
    assert (q - q') * d == r' - r;
    if q - q' >= 1 { MulMono(1, q - q', d); }
    if q - q' <= -1 { MulMono(q - q', -1, d); }
  }

  lemma DivModDef(n: int, d: int)
    requires d > 0
    ensures n == (n / d) * d + n % d && 0 <= n % d < d
  {}
}
