/** Prime moduli: Euclid's lemma, Fermat's little theorem and the square roots of one. */
module Primes {
  import opened Arith
  import opened Congruences

  ghost predicate Prime(p: int) {
    p > 1 && forall d :: 1 < d < p ==> p % d != 0
  }

  ghost predicate Divides(d: int, n: int)
    requires d > 0
  {
    n % d == 0
  }

  lemma DividesIntro(d: int, n: int, k: int)
    requires d > 0 && n == k * d
    ensures Divides(d, n)
  {
    DivModUnique(n, d, k, 0);
  }

  lemma DividesElim(d: int, n: int) returns (k: int)
    requires d > 0 && Divides(d, n)
    ensures n == k * d
  {
    k := n / d;
    DivModDef(n, d);
  }

  /** Euclid's lemma for a factor below p: pass to p modulo that factor. */
  lemma {:induction false} EuclidSmall(p: int, a: int, b: int)
    requires Prime(p) && 0 < a < p && Divides(p, a * b)
    ensures Divides(p, b)
    decreases a
  {
    if a > 1 {
      var q, r := p / a, p % a;
      DivModDef(p, a);
      var k := DividesElim(p, a * b);
      assert r * b == (b - q * k) * p by {
        MulDist(p, q * a, b);
        MulAssoc(q, a, b);
        MulAssoc(q, k, p);
        MulDist(b, q * k, p);
      }
      DividesIntro(p, r * b, b - q * k);
      EuclidSmall(p, r, b);
    }
  }

  /** Euclid's lemma. */
  lemma Euclid(p: int, a: int, b: int)
    requires Prime(p) && Divides(p, a * b)
    ensures Divides(p, a) || Divides(p, b)
  {
    var q, r := a / p, a % p;
    DivModDef(a, p);
    if r != 0 {
      var k := DividesElim(p, a * b);
      MulDist(a, q * p, b);
      MulAssoc(q, p, b);
      assert q * (p * b) == q * b * p by { MulAssoc(q, b, p); }
      MulDist(k, q * b, p);
      DividesIntro(p, r * b, k - q * b);
      EuclidSmall(p, r, b);
    }
  }

  /** Binomial coefficients by Pascal's rule. */
  function Choose(n: nat, k: nat): int {
    if k == 0 then 1 else if n == 0 then 0 else Choose(n - 1, k - 1) + Choose(n - 1, k)
  }

  lemma {:induction false} ChooseBeyond(n: nat, k: nat)
    requires k > n
    ensures Choose(n, k) == 0
    decreases n
  {
    if n > 0 {
      ChooseBeyond(n - 1, k - 1);
      ChooseBeyond(n - 1, k);
    }
  }

  lemma {:induction false} ChooseAll(n: nat)
    ensures Choose(n, n) == 1
    decreases n
  {
    if n > 0 {
      ChooseAll(n - 1);
      ChooseBeyond(n - 1, n);
    }
  }

  /** k * C(n, k) == n * C(n - 1, k - 1). */
  lemma {:induction false} Absorb(n: nat, k: nat)
    requires n > 0 && k > 0
    ensures k * Choose(n, k) == n * Choose(n - 1, k - 1)
    decreases n
  {
    var c, d := Choose(n - 1, k - 1), Choose(n - 1, k);
    if n == 1 {
      assert k > 1 ==> Choose(0, k - 1) == 0;
    } else {
      Absorb(n - 1, k);
      if k > 1 {
        Absorb(n - 1, k - 1);
        AbsorbStep(n, k, c, d, Choose(n - 2, k - 2), Choose(n - 2, k - 1));
      } else {
        assert Choose(n - 2, 0) == 1;
      }
    }
  }

  lemma AbsorbStep(n: int, k: int, c: int, d: int, e: int, f: int)
    requires (k - 1) * c == (n - 1) * e && k * d == (n - 1) * f && c == e + f
    ensures k * (c + d) == n * c
  {
    assert k * (c + d) == (k - 1) * c + c + k * d;
    assert (n - 1) * e + (n - 1) * f == (n - 1) * (e + f);
    assert (n - 1) * c + c == n * c;
  }

  /** The inner coefficients of a prime row are multiples of the prime. */
  lemma PrimeRow(p: int, k: nat)
    requires Prime(p) && 0 < k < p
    ensures Divides(p, Choose(p, k))
  {
    hide *;
    Absorb(p, k);
    DividesIntro(p, k * Choose(p, k), Choose(p - 1, k - 1));
    EuclidSmall(p, k, Choose(p, k));
  }

  /** The first m terms of (x + 1)^n. */
  function Expansion(x: int, n: nat, m: nat): int {
    if m == 0 then 0 else Expansion(x, n, m - 1) + Choose(n, m - 1) * Pow(x, m - 1)
  }

  lemma {:induction false} ExpansionStep(x: int, n: nat, m: nat)
    ensures Expansion(x, n + 1, m + 1) == x * Expansion(x, n, m) + Expansion(x, n, m + 1)
    decreases m
  {
    if m > 0 {
      ExpansionStep(x, n, m - 1);
      var c, d, p := Choose(n, m - 1), Choose(n, m), Pow(x, m - 1);
      assert Choose(n + 1, m) == c + d;
      MulDist(c, d, x * p);
      assert c * (x * p) == x * (c * p) by { MulAssoc(c, x, p); MulAssoc(x, c, p); }
      assert x * (Expansion(x, n, m - 1) + c * p) == x * Expansion(x, n, m - 1) + x * (c * p);
    } else {
      assert Expansion(x, n + 1, 1) == Expansion(x, n + 1, 0) + Choose(n + 1, 0) * Pow(x, 0);
      assert Expansion(x, n, 1) == Expansion(x, n, 0) + Choose(n, 0) * Pow(x, 0);
    }
  }

  /** The binomial theorem. */
  lemma {:induction false} Binomial(x: int, n: nat)
    ensures Expansion(x, n, n + 1) == Pow(x + 1, n)
    decreases n
  {
    if n == 0 {
      assert Expansion(x, 0, 1) == Expansion(x, 0, 0) + Choose(0, 0) * Pow(x, 0);
    } else {
      hide Choose;
      Binomial(x, n - 1);
      ExpansionStep(x, n - 1, n);
      ChooseBeyond(n - 1, n);
      assert Expansion(x, n - 1, n + 1) == Expansion(x, n - 1, n) + Choose(n - 1, n) * Pow(x, n);
      MulDist(x, 1, Pow(x + 1, n - 1));
    }
  }

  /** Modulo a prime, only the first term of a row survives before the last. */
  lemma {:induction false} InnerTerms(x: int, p: int, m: nat)
    requires Prime(p) && 0 < m <= p
    ensures Cong(Expansion(x, p, m), 1, p)
    decreases m
  {
    if m == 1 {
      assert Expansion(x, p, 1) == Expansion(x, p, 0) + Choose(p, 0) * Pow(x, 0);
    } else {
      InnerTerms(x, p, m - 1);
      PrimeRow(p, m - 1);
      var k := DividesElim(p, Choose(p, m - 1));
      var l := CongElim(Expansion(x, p, m - 1), 1, p);
      assert k * p * Pow(x, m - 1) == k * Pow(x, m - 1) * p by {
        MulAssoc(k, p, Pow(x, m - 1));
        MulAssoc(k, Pow(x, m - 1), p);
      }
      MulDist(l, k * Pow(x, m - 1), p);
      CongIntro(Expansion(x, p, m), 1, p, l + k * Pow(x, m - 1));
    }
  }

  /** x^p == x. */
  lemma {:induction false} FermatPower(x: nat, p: int)
    requires Prime(p)
    ensures Cong(Pow(x, p), x, p)
    decreases x
  {
    if x == 0 {
      assert Pow(0, p) == 0;
    } else {
      FermatPower(x - 1, p);
      Binomial(x - 1, p);
      InnerTerms(x - 1, p, p);
      ChooseAll(p);
      assert Pow(x, p) == Expansion(x - 1, p, p) + Pow(x - 1, p);
      CongAdd(Expansion(x - 1, p, p), 1, Pow(x - 1, p), x - 1, p);
    }
  }

  /** Fermat's little theorem. */
  lemma Fermat(x: nat, p: int)
    requires Prime(p) && !Divides(p, x)
    ensures Cong(Pow(x, p - 1), 1, p)
  {
    FermatPower(x, p);
    var k := CongElim(Pow(x, p), x, p);
    assert x * (Pow(x, p - 1) - 1) == k * p;
    DividesIntro(p, x * (Pow(x, p - 1) - 1), k);
    Euclid(p, x, Pow(x, p - 1) - 1);
  }

  /** One has no other square roots than itself and minus one. */
  lemma RootsOfOne(y: int, p: int)
    requires Prime(p) && 0 <= y < p && Cong(y * y, 1, p)
    ensures y == 1 || y == p - 1
  {
    assert y * y - 1 == (y - 1) * (y + 1);
    Euclid(p, y - 1, y + 1);
    if Divides(p, y - 1) {
      CongUnique(y, 1, p);
    } else {
      var k := DividesElim(p, y + 1);
      if k >= 2 { MulMono(2, k, p); }
      if k <= 0 { MulMono(k, 0, p); }
    }
  }
}
