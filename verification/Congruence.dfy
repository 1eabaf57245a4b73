/** Congruence of integers. */
module Congruences {
  import opened Arith

  ghost predicate Cong(a: int, b: int, n: int)
    requires n > 0
  {
    (a - b) % n == 0
  }

  lemma CongIntro(a: int, b: int, n: int, k: int)
    requires n > 0 && a == b + k * n
    ensures Cong(a, b, n)
  {
    DivModUnique(a - b, n, k, 0);
  }

  lemma CongElim(a: int, b: int, n: int) returns (k: int)
    requires n > 0 && Cong(a, b, n)
    ensures a == b + k * n
  {
    k := (a - b) / n;
    DivModDef(a - b, n);
  }

  lemma CongRefl(a: int, n: int)
    requires n > 0
    ensures Cong(a, a, n)
  {}

  lemma CongSym(a: int, b: int, n: int)
    requires n > 0 && Cong(a, b, n)
    ensures Cong(b, a, n)
  {
    var k := CongElim(a, b, n);
    CongIntro(b, a, n, -k);
  }

  lemma CongTrans(a: int, b: int, c: int, n: int)
    requires n > 0 && Cong(a, b, n) && Cong(b, c, n)
    ensures Cong(a, c, n)
  {
    var k := CongElim(a, b, n);
    var l := CongElim(b, c, n);
    MulDist(k, l, n);
    CongIntro(a, c, n, k + l);
  }

  lemma CongAdd(a: int, b: int, c: int, d: int, n: int)
    requires n > 0 && Cong(a, b, n) && Cong(c, d, n)
    ensures Cong(a + c, b + d, n) && Cong(a - c, b - d, n)
  {
    var k := CongElim(a, b, n);
    var l := CongElim(c, d, n);
    MulDist(k, l, n);
    CongIntro(a + c, b + d, n, k + l);
    CongIntro(a - c, b - d, n, k - l);
  }

  lemma CongMul(a: int, b: int, c: int, d: int, n: int)
    requires n > 0 && Cong(a, b, n) && Cong(c, d, n)
    ensures Cong(a * c, b * d, n)
  {
    var k := CongElim(a, b, n);
    var l := CongElim(c, d, n);
    calc {
      a * c;
      (b + k * n) * (d + l * n);
      b * d + b * (l * n) + k * n * (d + l * n);
      { MulAssoc(b, l, n); MulAssoc(k, n, d + l * n); assert n * (d + l * n) == (d + l * n) * n; MulAssoc(k, d + l * n, n); }
      b * d + (b * l) * n + (k * (d + l * n)) * n;
      { MulDist(b * l, k * (d + l * n), n); }
      b * d + (b * l + k * (d + l * n)) * n;
    }
    CongIntro(a * c, b * d, n, b * l + k * (d + l * n));
  }

  /** Congruent residues are equal. */
  lemma CongUnique(a: int, b: int, n: int)
    requires n > 0 && Cong(a, b, n) && 0 <= a < n && 0 <= b < n
    ensures a == b
  {
    var k := CongElim(a, b, n);
    if k >= 1 { MulMono(1, k, n); }
    if k <= -1 { MulMono(k, -1, n); }
  }

  lemma CongMod(a: int, n: int)
    requires n > 0
    ensures Cong(a, a % n, n)
  {
    DivModDef(a, n);
    CongIntro(a, a % n, n, a / n);
  }

  /** Two is invertible modulo an odd number, and so are its powers. */
  lemma {:induction false} CancelPow2(a: int, b: int, e: nat, n: int)
    requires n > 0 && n % 2 == 1 && Cong(a * Pow(2, e), b * Pow(2, e), n)
    ensures Cong(a, b, n)
    decreases e
  {
    if e > 0 {
      var p := Pow(2, e - 1);
      var k := CongElim(a * Pow(2, e), b * Pow(2, e), n);
      assert a * (2 * p) == 2 * (a * p) && b * (2 * p) == 2 * (b * p);
      HalfOfMultiple(a * p - b * p, k, n);
      CongIntro(a * p, b * p, n, k / 2);
      CancelPow2(a, b, e - 1, n);
    }
  }

  lemma HalfOfMultiple(y: int, k: int, n: int)
    requires n % 2 == 1 && 2 * y == k * n
    ensures k % 2 == 0 && y == k / 2 * n
  {
    var h, e, m := k / 2, k % 2, n / 2;
    MulDist(2 * h, e, n);
    MulAssoc(2, h, n);
    assert e * n == if e == 1 then n else 0;
  }
}
