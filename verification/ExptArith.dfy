/** The mathematics of sliding-window exponentiation in Montgomery form. */
module ExptArith {
  import opened Arith
  import opened Congruences
  import opened Digits
  import opened MpShift
  import opened Montgomery

  /** x stands for g^e: it is BP(k) * g^e, reduced; for the modulus 1 the computation starts at 1. */
  ghost predicate Form(x: int, g: int, e: nat, n: int, k: nat)
    requires n > 0
  {
    0 <= x <= n && Cong(x, BP(k) * Pow(g, e), n)
  }

  /** The radix, reduced as far as the normalization does it. */
  ghost predicate Normal(r: int, n: int, k: nat)
    requires n > 0
  {
    0 <= r <= n && Cong(r, BP(k), n)
  }

  lemma NormalValue(r: int, n: int, k: nat)
    requires n > 0 && r == if n == 1 then 1 else BP(k) % n
    ensures Normal(r, n, k)
  {
    hide BP;
    CongMod(BP(k), n);
    CongSym(BP(k), BP(k) % n, n);
  }

  /** The product of two forms, reduced once, is the form of the product. */
  lemma FormProduct(x: int, e: nat, y: int, f: nat, z: int, g: int, n: int, k: nat)
    requires n > 0 && n % 2 == 1 && Form(x, g, e, n, k) && Form(y, g, f, n, k) && Reduced(z, x * y, n, k)
    ensures Form(z, g, e + f, n, k)
  {
    var p, u, v := BP(k), Pow(g, e), Pow(g, f);
    CongMul(x, p * u, y, p * v, n);
    CongTrans(z * p, x * y, (p * u) * (p * v), n);
    PowAdd(g, e, f);
    assert (p * u) * (p * v) == (p * (u * v)) * p by {
      MulAssoc(p * u, p, v);
      assert (p * u) * p * v == (p * u) * v * p by { MulAssoc(p * u, p, v); MulAssoc(p * u, v, p); }
      MulAssoc(p, u, v);
    }
    RadixPower(k);
    CancelPow2(z, p * (u * v), k * DIGIT_BIT, n);
  }

  /** One more reduction takes the factor BP(k) out. */
  lemma FormEnd(x: int, e: nat, z: int, g: int, n: int, k: nat)
    requires n > 0 && n % 2 == 1 && Form(x, g, e, n, k) && Reduced(z, x, n, k)
    ensures z == Pow(g, e) % n
  {
    var p, u := BP(k), Pow(g, e);
    CongTrans(z * p, x, p * u, n);
    RadixPower(k);
    CancelPow2(z, u, k * DIGIT_BIT, n);
    CongMod(u, n);
    CongTrans(z, u, u % n, n);
    CongUnique(z, u % n, n);
  }

  /** The start: R modulo n is the form of 1. */
  lemma FormOne(x: int, g: int, n: int, k: nat)
    requires n > 0 && Normal(x, n, k)
    ensures Form(x, g, 0, n, k)
  {
    assert BP(k) * Pow(g, 0) == BP(k);
  }

  /** ... and G * (R modulo n) that of G. */
  lemma FormBase(x: int, r: int, g: int, n: int, k: nat)
    requires n > 0 && Normal(r, n, k) && x == (g * r) % n
    ensures Form(x, g, 1, n, k)
  {
    PowOne(g);
    hide BP, Pow, Cong;
    CongRefl(g, n);
    CongMul(r, BP(k), g, g, n);
    CongMod(g * r, n);
    CongSym(g * r, x, n);
    CongTrans(x, r * g, BP(k) * g, n);
  }

  lemma PowOne(g: int)
    ensures Pow(g, 1) == g
  {
    assert Pow(g, 1) == g * Pow(g, 0);
  }

  /** A product of residues is in the range of the reduction. */
  lemma ProductInRange(x: int, y: int, n: int, k: nat)
    requires 0 <= x <= n && 0 <= y <= n && 0 < n < BP(k)
    ensures InRange(x * y, n, k)
  {
    MulNonNegative(x, y);
    MulMono(x, n, y);
    MulMono(y, n, n);
    MulMonoStrict(n, BP(k), n);
  }

  lemma ResidueInRange(x: int, n: int, k: nat)
    requires 0 <= x <= n && 0 < n < BP(k)
    ensures InRange(x, n, k)
  {
    MulMonoStrict(1, BP(k), n);
  }

  /** The exponent: `v` is what has been read; `bl` bits of the current digit d and `n` digits below it are left. */
  ghost predicate Reading(X: seq<int>, total: int, v: int, d: int, bl: nat, n: nat) {
    v >= 0 && d >= 0 && bl <= DIGIT_BIT && n <= |X| &&
    total == v * (Pow(2, bl) * BP(n)) + (d % Pow(2, bl)) * BP(n) + Low(X, n)
  }

  lemma ReadDigit(X: seq<int>, total: int, v: int, d: int, n: nat)
    requires Reading(X, total, v, d, 0, n) && n > 0 && DigitsOk(X)
    ensures Reading(X, total, v, X[n - 1], DIGIT_BIT, n - 1)
  {
    var e := X[n - 1];
    assert d % Pow(2, 0) == 0;
    DivModUnique(e, B, 0, e);
    LowNext(X, n - 1);
    BPStep(n - 1);
  }

  /** The next bit from the top. */
  lemma ReadBit(X: seq<int>, total: int, v: int, d: int, bl: nat, n: nat, y: int)
    requires Reading(X, total, v, d, bl, n) && bl > 0 && y == d / Pow(2, bl - 1) % 2
    ensures Reading(X, total, 2 * v + y, d, bl - 1, n)
  {
    var p, h := Pow(2, bl - 1), d / Pow(2, bl - 1);
    DivModDef(d, p);
    DivModDef(h, 2);
    var l := d % p;
    assert d == (h / 2) * (2 * p) + (y * p + l) by {
      MulDist(2 * (h / 2), y, p);
      MulAssoc(h / 2, 2, p);
    }
    MulNonNegative(y, p);
    DivModUnique(d, 2 * p, h / 2, y * p + l);
    BitPlace(v, y, p, l, BP(n));
  }

  lemma BitPlace(v: int, y: int, p: int, l: int, w: int)
    ensures v * (2 * p * w) + (y * p + l) * w == (2 * v + y) * (p * w) + l * w
  {
    MulDist(y * p, l, w);
    MulAssoc(y, p, w);
    MulDist(2 * v, y, p * w);
    assert v * (2 * p * w) == 2 * v * (p * w) by {
      assert 2 * p * w == 2 * (p * w) by { MulAssoc(2, p, w); }
      MulAssoc(v, 2, p * w);
    }
  }

  lemma ReadAll(X: seq<int>, total: int, v: int, d: int)
    requires Reading(X, total, v, d, 0, 0)
    ensures v == total
  {
    assert d % Pow(2, 0) == 0;
  }

  lemma ReadNone(X: seq<int>, total: int, n: nat)
    requires n <= |X| && total == Low(X, n)
    ensures Reading(X, total, 0, 0, 0, n)
  {}

  /** The buffered digit, shifted left bit by bit: its bit DIGIT_BIT - 1 is the next bit of d. */
  lemma TopBit(d: int, bl: nat, buf: int)
    requires 0 < bl <= DIGIT_BIT && d >= 0 && buf == d * Pow(2, DIGIT_BIT - bl)
    ensures buf / Pow(2, DIGIT_BIT - 1) % 2 == d / Pow(2, bl - 1) % 2
    ensures buf * 2 == d * Pow(2, DIGIT_BIT - (bl - 1)) && buf >= 0
  {
    var p, s := Pow(2, bl - 1), Pow(2, DIGIT_BIT - bl);
    PowAdd(2, bl - 1, DIGIT_BIT - bl);
    PowAdd(2, 1, DIGIT_BIT - bl);
    PowOne(2);
    hide Pow;
    var h, l := d / p, d % p;
    DivModDef(d, p);
    MulDist(h * p, l, s);
    MulAssoc(h, p, s);
    MulMono(l, p - 1, s);
    MulNonNegative(l, s);
    MulDist(p, 1, s);
    DivModUnique(buf, p * s, h, l * s);
    assert DIGIT_BIT - (bl - 1) == 1 + (DIGIT_BIT - bl);
    assert d * (2 * s) == d * s * 2;
    MulNonNegative(d, s);
  }
}
