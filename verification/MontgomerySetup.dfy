/** What Montgomery arithmetic needs to know about a modulus (bn_mp_montgomery_setup.c,
    bn_mp_montgomery_calc_normalization.c). */
module MontgomerySetup {
  import opened Arith
  import opened Congruences
  import opened Digits
  import opened MpInts
  import opened MpAdd
  import opened MpShift
  import opened Montgomery

  /** x is the inverse of b modulo 2^k. */
  ghost predicate InverseMod(x: int, b: int, k: nat) { Cong(x * b, 1, Pow(2, k)) }

  lemma FirstCase(b: int, x: int, c: int, y: int, r: int, d: int)
    requires b == 16 * c + r && x == 16 * c + y && y * r == 16 * d + 1
    ensures InverseMod(x, b, 4)
  {
    assert Pow(2, 4) == 16;
    var m := 16 * (c * c) + c * r + c * y + d;
    assert (16 * c + y) * (16 * c + r) == 16 * (16 * (c * c)) + 16 * (c * r) + 16 * (y * c) + y * r;
    CongIntro(x * b, 1, 16, m);
  }

  /** The start of the lifting: an odd digit is inverted modulo 16 by flipping one bit. */
  lemma FirstInverse(b: int, x: int)
    requires b % 2 == 1 && x == (b + 2) / 4 % 2 * 8 + b
    ensures InverseMod(x, b, 4)
  {
    hide InverseMod, Pow;
    var c, r := b / 16, b % 16;
    BitTest(b, c, r);
    var y := r + 8 * ((r + 2) / 4 % 2);
    var d := InverseTable(r, y);
    FirstCase(b, x, c, y, r, d);
  }

  lemma BitTest(b: int, c: int, r: int)
    requires c == b / 16 && r == b % 16 && b % 2 == 1
    ensures b == 16 * c + r && 0 <= r < 16 && r % 2 == 1
    ensures (b + 2) / 4 % 2 == (r + 2) / 4 % 2
  {
    DivModDef(b, 16);
    SameParity(b, r, 8 * c);
    FourTimes(r + 2, 4 * c);
    SameParity(4 * c + (r + 2) / 4, (r + 2) / 4, 2 * c);
  }

  lemma SameParity(x: int, y: int, h: int)
    requires x == 2 * h + y
    ensures x % 2 == y % 2
  {
    DivModDef(y, 2);
    DivModUnique(x, 2, h + y / 2, y % 2);
  }

  lemma FourTimes(x: int, h: int)
    ensures (4 * h + x) / 4 == h + x / 4
  {
    DivModDef(x, 4);
    DivModUnique(4 * h + x, 4, h + x / 4, x % 4);
  }

  function InverseTable(r: int, y: int): (d: int)
    requires 0 <= r < 16 && r % 2 == 1 && y == r + 8 * ((r + 2) / 4 % 2)
    ensures y * r == 16 * d + 1
  {
    if r == 1 then 0 else if r == 3 then 2 else if r == 5 then 4 else if r == 7 then 3
    else if r == 9 then 5 else if r == 11 then 13 else if r == 13 then 17 else 14
  }

  /** One lifting step on exact integers: the error is squared. */
  lemma ErrorSquared(x: int, b: int, p: int, m: int)
    requires x * b == 1 + m * p
    ensures x * (2 - b * x) * b == 1 - (m * m) * (p * p)
  {
    var z := x * b;
    assert x * (2 - b * x) * b == z * (2 - z) by { FactorOut(x, b); }
    assert z * (2 - z) == 1 - (z - 1) * (z - 1);
    SquareProduct(m, p);
  }

  lemma FactorOut(x: int, b: int)
    ensures x * (2 - b * x) * b == x * b * (2 - x * b)
  {
    MulAssoc(x, 2 - b * x, b);
    MulAssoc(x, b, 2 - x * b);
    assert (2 - b * x) * b == b * (2 - x * b);
  }

  lemma SquareProduct(m: int, p: int)
    ensures (m * p) * (m * p) == (m * m) * (p * p)
  {
    MulAssoc(m, p, m * p);
    assert p * (m * p) == m * (p * p) by { MulAssoc(m, p, p); }
    MulAssoc(m, m, p * p);
  }

  /** Dropping high bits of a word does not matter to the low ones. */
  lemma WordCong(y: int, k: nat, w: nat)
    requires k <= w
    ensures Cong(y % Pow(2, w), y, Pow(2, k))
  {
    hide Pow, Cong;
    PowAdd(2, w - k, k);
    DivModDef(y, Pow(2, w));
    var q, s := y / Pow(2, w), Pow(2, w - k);
    MulAssoc(q, s, Pow(2, k));
    CongIntro(y % Pow(2, w), y, Pow(2, k), -(q * s));
  }

  /** Each step x(2 - bx) doubles the number of correct bits, up to the width of the word. */
  lemma LiftInverse(x: int, b: int, k: nat, w: nat)
    requires InverseMod(x, b, k) && 2 * k <= w
    ensures InverseMod((x * (2 - b * x)) % Pow(2, w), b, 2 * k)
  {
    var p := Pow(2, k);
    PowAdd(2, k, k);
    assert k + k == 2 * k;
    hide *;
    var y := x * (2 - b * x);
    LiftExact(x, b, p);
    WordCong(y, 2 * k, w);
    LiftWord(y % Pow(2, w), y, b, p * p);
  }

  lemma LiftExact(x: int, b: int, p: int)
    requires p > 0 && Cong(x * b, 1, p)
    ensures p * p > 0 && Cong(x * (2 - b * x) * b, 1, p * p)
  {
    hide *;
    var m := CongElim(x * b, 1, p);
    ErrorSquared(x, b, p, m);
    MulPositive(p, p);
    NegSquare(m, p * p);
    CongIntro(x * (2 - b * x) * b, 1, p * p, -(m * m));
  }

  lemma NegSquare(m: int, q: int)
    ensures 1 - (m * m) * q == 1 + -(m * m) * q
  {}

  lemma LiftWord(z: int, y: int, b: int, q: int)
    requires q > 0 && Cong(z, y, q) && Cong(y * b, 1, q)
    ensures Cong(z * b, 1, q)
  {
    hide *;
    CongRefl(b, q);
    CongMul(z, y, b, b, q);
    CongTrans(z * b, y * b, 1, q);
  }

  lemma FewerBits(a: int, b: int, k: nat, j: nat)
    requires j <= k && Cong(a, b, Pow(2, k))
    ensures Cong(a, b, Pow(2, j))
  {
    var m := CongElim(a, b, Pow(2, k));
    PowAdd(2, k - j, j);
    MulAssoc(m, Pow(2, k - j), Pow(2, j));
    CongIntro(a, b, Pow(2, j), m * Pow(2, k - j));
  }

  /** Lifting steps of the configuration, each doubling 4 correct bits: 1 for 8-bit digits, 2 for 16, 3 for 32, 4 for 64. */
  type LiftSteps = s: nat | DIGIT_BIT <= Pow(2, s + 2) witness (PowAbove(DIGIT_BIT); DIGIT_BIT)
  const LIFT_STEPS: LiftSteps

  lemma {:induction false} PowAbove(n: nat)
    ensures n < Pow(2, n) <= Pow(2, n + 2)
    decreases n
  {
    if n > 0 { PowAbove(n - 1); }
  }

  /** Bits of a digit word. */
  type DigitWord = w: nat | Pow(2, LIFT_STEPS + 2) <= w witness Pow(2, LIFT_STEPS + 2)
  const WORD_OF_DIGIT: DigitWord

  /** mp_montgomery_setup */
  method Setup(n: MpInt) returns (res: Status, rho: nat)
    requires n.Ok()
    ensures res == if n.dp[0] % 2 == 0 then BadValue else Okay
    ensures res == Okay ==> IsRho(rho, n.dp[0])
  {
    hide Pow, Cong;
    var b := n.dp[0];
    rho := 0;
    if b % 2 == 0 { return BadValue, 0; }
    var x := (b + 2) / 4 % 2 * 8 + b;
    FirstInverse(b, x);
    ghost var k := 4;
    FourBits();
    var i := 0;
    while i < LIFT_STEPS
      invariant i <= LIFT_STEPS && k == Pow(2, i + 2) && InverseMod(x, b, k)
    {
      NextPower(i, LIFT_STEPS);
      LiftInverse(x, b, k, WORD_OF_DIGIT);
      x := (x * (2 - b * x)) % Pow(2, WORD_OF_DIGIT);
      k := 2 * k;
      i := i + 1;
    }
    NegatedInverse(x, b, k);
    rho := (B - x) % B;
    return Okay, rho;
  }

  lemma FourBits()
    ensures Pow(2, 2) == 4
  {}

  lemma NextPower(i: nat, steps: nat)
    requires i < steps
    ensures Pow(2, i + 1 + 2) == 2 * Pow(2, i + 2) <= Pow(2, steps + 2)
  {
    PowMono(2, i + 1 + 2, steps + 2);
  }

  lemma NegatedInverse(x: int, b: int, k: nat)
    requires InverseMod(x, b, k) && DIGIT_BIT <= k
    ensures IsRho((B - x) % B, b)
  {
    var rho := (B - x) % B;
    FewerBits(x * b, 1, k, DIGIT_BIT);
    var m := CongElim(x * b, 1, B);
    DivModDef(B - x, B);
    var q := (B - x) / B;
    assert rho == (1 - q) * B - x by { MulDist(1, q, B); }
    MulDist((1 - q) * B, x, b);
    assert (1 - q) * B * b == (1 - q) * b * B by { MulAssoc(1 - q, B, b); MulAssoc(1 - q, b, B); }
    MulDist((1 - q) * b, m, B);
    DivModUnique(rho * b + 1, B, (1 - q) * b - m, 0);
  }

  /** One doubling step. */
  lemma DoubleMod(e: nat, a: int, n: int)
    requires n > 0 && a == Pow(2, e) % n
    ensures 0 <= a < n && (if 2 * a < n then 2 * a else 2 * a - n) == Pow(2, e + 1) % n
  {
    var q := Pow(2, e) / n;
    DivModDef(Pow(2, e), n);
    MulAssoc(2, q, n);
    MulDist(2 * q, 1, n);
    if 2 * a < n {
      DivModUnique(Pow(2, e + 1), n, 2 * q, 2 * a);
    } else {
      DivModUnique(Pow(2, e + 1), n, 2 * q + 1, 2 * a - n);
    }
  }

  lemma {:induction false} OddNotPower(e: nat, n: int)
    requires n > 1 && n % 2 == 1
    ensures Pow(2, e) != n
  {
    if e > 0 { assert Pow(2, e) % 2 == 0; }
  }

  /** The modulus 1, and a power of two of more than one digit whose number of bits does not fill its digits: for them
      the doubling would begin at the modulus itself. */
  ghost predicate BeginsAtModulus(n: int, used: nat) {
    n == 1 || (used > 1 && exists k: nat :: n == Pow(2, k) && (k + 1) % DIGIT_BIT != 0)
  }

  lemma OddBeginsBelow(n: int, used: nat)
    requires n > 0 && n % 2 == 1
    ensures BeginsAtModulus(n, used) <==> n == 1
  {
    if n > 1 {
      forall k: nat ensures Pow(2, k) != n { OddNotPower(k, n); }
    }
  }

  lemma {:induction false} PowerBits(k: nat, count: nat)
    requires count > 0 && Pow(2, count - 1) <= Pow(2, k) < Pow(2, count)
    ensures k == count - 1
  {
    if k >= count { PowMono(2, count, k); }
    if k < count - 1 { PowMonoStrict(k, count - 1); }
  }

  lemma PowMonoStrict(a: nat, b: nat)
    requires a < b
    ensures Pow(2, a) < Pow(2, b)
  {
    PowMono(2, a + 1, b);
    PowPositive(2, a);
  }

  /** The start is a power of two at most n; when it is n. */
  lemma StartExact(e: nat, used: nat, count: nat, bits: int, n: int)
    requires count > 0 && Pow(2, count - 1) <= n < Pow(2, count) && bits == count % DIGIT_BIT && used > 0
    requires (used - 1) * DIGIT_BIT < count <= used * DIGIT_BIT
    requires e == if used > 1 then (used - 1) * DIGIT_BIT + bits - 1 else 0
    ensures Pow(2, e) <= n && (Pow(2, e) == n <==> BeginsAtModulus(n, used))
  {
    NormalizationSizes(used, count, bits);
    PowNone();
    hide Pow;
    if used > 1 {
      WholeBits(used, count, bits, e);
      PowMono(2, e, count - 1);
      if bits == 0 { PowMonoStrict(e, count - 1); }
      PowMonoStrict(0, count - 1);
      forall k: nat | n == Pow(2, k) ensures k == count - 1 { PowerBits(k, count); }
    } else {
      PowMono(2, 0, count - 1);
    }
  }

  lemma WholeBits(used: nat, count: nat, bits: int, e: int)
    requires used > 1 && (used - 1) * DIGIT_BIT < count <= used * DIGIT_BIT && bits == count % DIGIT_BIT
    requires e == (used - 1) * DIGIT_BIT + bits - 1
    ensures if bits == 0 then 0 <= e < count - 1 else e == count - 1
    ensures count > 1 && (e + 1 == count ==> (e + 1) % DIGIT_BIT == bits)
  {
    MulDist(used, 1, DIGIT_BIT);
    var k := count - (used - 1) * DIGIT_BIT;
    MulMono(1, used - 1, DIGIT_BIT);
    if k < DIGIT_BIT {
      DivModUnique(count, DIGIT_BIT, used - 1, k);
    } else {
      DivModUnique(count, DIGIT_BIT, used, 0);
    }
  }

  /** The running value: a residue, or the modulus itself for ever. */
  function Doubled(e: nat, n: int, stuck: bool): int
    requires n > 0
  {
    if stuck then n else Pow(2, e) % n
  }

  /** mp_montgomery_calc_normalization, by doubling: a = R mod b, R being BP(b.used), unless the doubling begins at the
      modulus itself; then it stays there. */
  method CalcNormalization(a: MpInt, b: MpInt)
    requires a.Loose() && |a.dp| > 0 && b.Ok() && a != b && b.Mag() > 0
    modifies a
    ensures a.Valid() && a.Int() == if BeginsAtModulus(b.Mag(), b.used) then b.Mag() else BP(b.used) % b.Mag()
  {
    hide Low, BP, Pow, Val, BeginsAtModulus, Doubled;
    ghost var N := b.Mag();
    MagBounds(b);
    var count := CountBits(b);
    var bits: int := count % DIGIT_BIT;
    NormalizationSizes(b.used, count, bits);
    ghost var e: nat := 0;
    ghost var stuck := BeginsAtModulus(N, b.used);
    if b.used > 1 {
      e := (b.used - 1) * DIGIT_BIT + bits - 1;
      StartExact(e, b.used, count, bits, N);
      TwoExpt(a, (b.used - 1) * DIGIT_BIT + bits - 1);
    } else {
      StartExact(e, b.used, count, bits, N);
      Set(a, 1);
      bits := 1;
      PowNone();
    }
    DoubledStart(e, N, stuck);
    MagBounds(a);
    var x := bits - 1;
    while x < DIGIT_BIT
      invariant bits - 1 <= x <= DIGIT_BIT && e + DIGIT_BIT - x == b.used * DIGIT_BIT
      invariant a.Valid() && a.sign == ZPos && a.Mag() == Doubled(e, N, stuck)
      decreases DIGIT_BIT - x
    {
      DoubleOnce(a, b, e, stuck);
      e := e + 1;
      x := x + 1;
    }
    RadixPower(b.used);
    DoubledEnd(e, N, stuck);
  }

  lemma DoubledStart(e: nat, n: int, stuck: bool)
    requires n > 0 && Pow(2, e) <= n && (stuck <==> Pow(2, e) == n)
    ensures Doubled(e, n, stuck) == Pow(2, e)
  {
    hide Pow;
    PowPositive(2, e);
    if !stuck { DivModUnique(Pow(2, e), n, 0, Pow(2, e)); }
  }

  lemma DoubledEnd(e: nat, n: int, stuck: bool)
    requires n > 0
    ensures Doubled(e, n, stuck) == if stuck then n else Pow(2, e) % n
  {}

  lemma PowNone()
    ensures Pow(2, 0) == 1 && 1 % B == 1
  {}

  lemma NormalizationSizes(used: nat, count: nat, bits: int)
    requires used > 0 && (used - 1) * DIGIT_BIT < count <= used * DIGIT_BIT && bits == count % DIGIT_BIT
    ensures used > 1 ==> 0 <= (used - 1) * DIGIT_BIT + bits - 1 <= count - 1
    ensures (used - 1) * DIGIT_BIT + DIGIT_BIT == used * DIGIT_BIT
  {
    MulDist(used, 1, DIGIT_BIT);
    var k := count - (used - 1) * DIGIT_BIT;
    if k < DIGIT_BIT {
      DivModUnique(count, DIGIT_BIT, used - 1, k);
    } else {
      DivModUnique(count, DIGIT_BIT, used, 0);
    }
    if used > 1 { MulMono(1, used - 1, DIGIT_BIT); }
  }

  lemma DoubledMore(e: nat, a: int, n: int, stuck: bool)
    requires n > 0 && a == Doubled(e, n, stuck)
    ensures 0 <= a <= n && (if 2 * a < n then 2 * a else 2 * a - n) == Doubled(e + 1, n, stuck)
  {
    if !stuck { DoubleMod(e, a, n); }
  }

  method DoubleOnce(a: MpInt, b: MpInt, ghost e: nat, ghost stuck: bool)
    requires a.Valid() && a.sign == ZPos && b.Ok() && a != b && b.Mag() > 0 && a.Mag() == Doubled(e, b.Mag(), stuck)
    modifies a
    ensures a.Valid() && a.sign == ZPos && a.Mag() == Doubled(e + 1, b.Mag(), stuck)
  {
    hide Low, BP, Pow, Val, Doubled;
    DoubledMore(e, a.Mag(), b.Mag(), stuck);
    Mul2(a, a);
    MagBounds(a);
    OrderByUsed(b, a);
    var r := CmpMag(a, b);
    if r != Lt { SSub(a, b, a); }
    MagBounds(a);
  }
}
