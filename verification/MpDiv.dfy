/** mp_div: signed division of multiple-precision integers (bn_mp_div.c). */
module MpDiv {
  import opened Arith
  import opened Digits
  import opened MpInts
  import opened MpAdd
  import opened MpShift
  import opened MpDivArith

  /** The divisor has been normalised: `t` is its top digit, at least B / 4. */
  ghost predicate Normalised(y: MpInt, t: nat)
    reads y
  {
    y.Valid() && y.sign == ZPos && y.used == t + 1 && 4 * At(y.dp, t) >= B
  }

  /** The partial remainder before quotient digit i - t - 1 is found. */
  ghost predicate Partial(x: MpInt, y: MpInt, i: nat, t: nat)
    reads x, y
    requires t < i
  {
    x.Valid() && x.sign == ZPos && i < |x.dp| && x.Mag() < y.Mag() * BP(i - t)
  }

  /** The quotient digit that is due. */
  ghost function Due(X: int, Y: int, n: nat): int {
    if Y * BP(n) == 0 then 0 else X / (Y * BP(n))
  }

  lemma DueMeans(X: int, Y: int, n: nat)
    requires Y > 0 && X >= 0
    ensures var Q := Due(X, Y, n); Q >= 0 && Q * (Y * BP(n)) <= X < (Q + 1) * (Y * BP(n))
    ensures X < Y * BP(n + 1) ==> Due(X, Y, n) < B
  {
    BPStep(n);
    var M := Y * BP(n);
    MulPositive(Y, BP(n));
    var Q := X / M;
    DivModDef(X, M);
    MulDist(Q, 1, M);
    MulCancel(-1, Q, M);
    if X < Y * BP(n + 1) {
      assert Y * BP(n + 1) == B * M by { MulAssoc(Y, B, BP(n)); MulAssoc(B, Y, BP(n)); }
      MulCancel(Q, B, M);
    }
  }

  lemma PartialMeans(x: MpInt, y: MpInt, i: nat, t: nat)
    requires t < i && Partial(x, y, i, t) && Normalised(y, t)
    ensures x.used <= i + 1 && x.Mag() == Low(x.dp, i + 1) >= 0 && y.Mag() == Low(y.dp, t + 1) > 0
    ensures var Q := Due(x.Mag(), y.Mag(), i - t - 1); 0 <= Q < B
    ensures i > x.used ==> Due(x.Mag(), y.Mag(), i - t - 1) == 0
  {
    MagBounds(x);
    MagBounds(y);
    BPPositive(t);
    BPPositive(i - t);
    BPAdd(t + 1, i - t);
    MulMonoStrict(y.Mag(), BP(t + 1), BP(i - t));
    if x.used > i + 1 { BPMono(i + 1, x.used - 1); }
    UsedValue(x, i + 1);
    UsedValue(y, t + 1);
    DueMeans(x.Mag(), y.Mag(), i - t - 1);
    if i > x.used {
      BPMono(x.used, i - 1);
      BPAdd(t, i - t - 1);
      BPPositive(i - t - 1);
      MulMono(BP(t), y.Mag(), BP(i - t - 1));
      DivModUnique(x.Mag(), y.Mag() * BP(i - t - 1), 0, x.Mag());
    }
  }

  lemma GuessLarge(x: MpInt, y: MpInt, i: nat, t: nat)
    requires t < i && Normalised(y, t) && Partial(x, y, i, t)
    ensures Due(x.Mag(), y.Mag(), i - t - 1) * At(y.dp, t) <= At(x.dp, i) * B + At(x.dp, i - 1)
  {
    hide Val, Low, BP, LeadThree, TopTwo, Due;
    PartialMeans(x, y, i, t);
    var X, Y, n := x.Mag(), y.Mag(), i - t - 1;
    Leading(x.dp, i);
    LeadingTwo(y.dp, t);
    DueMeans(X, Y, n);
    BPPositive(t);
    BPPositive(n);
    BPAdd(t, n);
    GuessNotSmall(Due(X, Y, n), X, Y, BP(t), BP(n), At(y.dp, t), At(x.dp, i) * B + At(x.dp, i - 1));
  }

  /** The first guess at a quotient digit, from two digits of x and one of y. */
  method Guess(x: MpInt, y: MpInt, i: nat, t: nat) returns (q: nat)
    requires t < i && Normalised(y, t) && Partial(x, y, i, t)
    ensures Due(x.Mag(), y.Mag(), i - t - 1) <= q < B
    ensures q * At(y.dp, t) <= At(x.dp, i) * B + At(x.dp, i - 1)
  {
    hide Val, Low, BP, Due;
    PartialMeans(x, y, i, t);
    GuessLarge(x, y, i, t);
    ghost var Q := Due(x.Mag(), y.Mag(), i - t - 1);
    var yt := y.dp[t];
    if x.dp[i] == yt {
      q := B - 1;
      GuessTop(yt, x.dp[i - 1]);
    } else {
      var tmp := x.dp[i] * B + x.dp[i - 1];
      MulNonNegative(x.dp[i], B);
      GuessRange(Q, tmp, yt);
      q := if tmp / yt > B - 1 then B - 1 else tmp / yt;
    }
  }

  lemma GuessTop(y: int, x: int)
    requires y >= 0 && x >= 0
    ensures (B - 1) * y <= y * B + x
  {
    MulDist(B, 1, y);
  }

  lemma GuessRange(Q: int, tmp: int, y: int)
    requires y > 0 && Q * y <= tmp && tmp >= 0
    ensures Q <= tmp / y && tmp / y >= 0
    ensures forall q :: q <= tmp / y ==> q * y <= tmp
  {
    DivModDef(tmp, y);
    MulDist(tmp / y, 1, y);
    MulCancel(Q, tmp / y + 1, y);
    MulCancel(-1, tmp / y, y);
    forall q | q <= tmp / y ensures q * y <= tmp {
      MulMono(q, tmp / y, y);
    }
  }

  lemma Wrap(g: int)
    requires 0 <= g < B
    ensures g % B == g && ((g + 1) % B - 1) % B == g
  {
    DivModUnique(g, B, 0, g);
    if g + 1 == B {
      DivModUnique(g + 1, B, 1, 0);
      DivModUnique(-1, B, -1, g);
    } else {
      DivModUnique(g + 1, B, 0, g + 1);
    }
  }

  /** Two digits written straight into a buffer. */
  method PairDigits(a: MpInt, d0: nat, d1: nat)
    requires |a.dp| >= 2 && IsDigit(d0) && IsDigit(d1)
    modifies a
    ensures a.Loose() && a.Mag() == d1 * B + d0 && |a.dp| == old(|a.dp|)
  {
    Zero(a);
    a.dp := a.dp[0 := d0][1 := d1];
    a.used := 2;
    UsedValue(a, 2);
    ThreeLow(a.dp);
  }

  /** Three digits; the top one may be zero and still count as used. */
  method TripleDigits(a: MpInt, d0: nat, d1: nat, d2: nat)
    requires a.Loose() && |a.dp| >= 3 && a.used <= 3 && IsDigit(d0) && IsDigit(d1) && IsDigit(d2)
    modifies a
    ensures a.Loose() && a.used == 3 && |a.dp| == old(|a.dp|)
    ensures a.Mag() == d2 * (B * B) + d1 * B + d0
  {
    a.dp := a.dp[0 := d0][1 := d1][2 := d2];
    a.used := 3;
    UsedValue(a, 3);
    ThreeLow(a.dp);
  }

  lemma ThreeLow(s: seq<int>)
    ensures BP(2) == B * B && BP(3) == B * (B * B)
    ensures Low(s, 2) == At(s, 1) * B + At(s, 0)
    ensures Low(s, 3) == At(s, 2) * (B * B) + At(s, 1) * B + At(s, 0)
  {
    assert BP(0) == 1 && BP(1) == B;
    assert Low(s, 1) == At(s, 0);
  }

  lemma ShortProduct(used: nat, q: int, v: int)
    requires 0 <= q < B && 0 <= v < B * B && q * v < BP(used) && (used > 0 ==> BP(used - 1) <= q * v)
    ensures used <= 3 && (used < 3 ==> q * v < B * B)
  {
    ThreeLow([]);
    MulMono(q, B, v);
    MulMonoStrict(v, B * B, B);
    if used > 3 { BPMono(3, used - 1); }
    if used < 3 { BPMono(used, 2); }
  }

  lemma TooBig(q: int, Q: int, v: int, x3: int)
    requires q * v > x3 && Q * v <= x3 && v >= 0
    ensures q > Q
  {
    if q <= Q { MulMono(q, Q, v); }
  }

  /** The digits of y and x that the test looks at. */
  ghost function TestY(y: MpInt, t: nat): int
    reads y
  {
    At(y.dp, t) * B + (if t < 1 then 0 else At(y.dp, t - 1))
  }

  ghost function TestX(x: MpInt, i: nat): int
    requires i > 0
    reads x
  {
    At(x.dp, i) * (B * B) + At(x.dp, i - 1) * B + (if i < 2 then 0 else At(x.dp, i - 2))
  }

  lemma TestDigits(x: MpInt, y: MpInt, i: nat, t: nat)
    requires t < i && Normalised(y, t) && Partial(x, y, i, t)
    ensures At(y.dp, t) * B <= TestY(y, t) < B * B
    ensures Due(x.Mag(), y.Mag(), i - t - 1) * TestY(y, t) <= TestX(x, i)
  {
    var X, Y, n := x.Mag(), y.Mag(), i - t - 1;
    PartialMeans(x, y, i, t);
    MulMono(At(y.dp, t), B - 1, B);
    MulDist(B, 1, B);
    hide Val, Low, BP, Due, LeadTwo;
    Leading(x.dp, i);
    LeadingTwo(y.dp, t);
    DueMeans(X, Y, n);
    BPPositive(t);
    BPPositive(n);
    BPAdd(t, n);
    TestIsSafe(Due(X, Y, n), X, Y, BP(t), BP(n), TestY(y, t), TestX(x, i));
  }

  lemma OneTooBig(x: MpInt, y: MpInt, i: nat, t: nat, q: int)
    requires t < i && Normalised(y, t) && Partial(x, y, i, t) && 0 <= q < B
    requires q * At(y.dp, t) <= At(x.dp, i) * B + At(x.dp, i - 1)
    requires q * TestY(y, t) <= TestX(x, i) || q * TestY(y, t) < B * B
    ensures q <= Due(x.Mag(), y.Mag(), i - t - 1) + 1
  {
    var X, Y, n := x.Mag(), y.Mag(), i - t - 1;
    PartialMeans(x, y, i, t);
    TestDigits(x, y, i, t);
    DueMeans(X, Y, n);
    hide Val, Low, BP, Due, LeadTwo, LeadThree, TopTwo, Partial;
    Leading(x.dp, i);
    LeadingTwo(y.dp, t);
    BPPositive(t);
    BPPositive(n);
    BPAdd(t, n);
    if q >= 1 {
      AtMostOneTooBig(q, X, Y, BP(t), BP(n), At(y.dp, t), At(x.dp, i) * B + At(x.dp, i - 1), TestY(y, t), TestX(x, i));
      MulPositive(Y, BP(n));
      MulCancel(q - 1, Due(X, Y, n) + 1, Y * BP(n));
    }
  }

  lemma AboveDue(x: MpInt, y: MpInt, i: nat, t: nat, q: int)
    requires t < i && Normalised(y, t) && Partial(x, y, i, t) && q < B && q * TestY(y, t) > TestX(x, i)
    ensures 0 <= Due(x.Mag(), y.Mag(), i - t - 1) <= q - 1 && (q - 1) % B == q - 1
  {
    TestDigits(x, y, i, t);
    PartialMeans(x, y, i, t);
    hide *;
    TooBig(q, Due(x.Mag(), y.Mag(), i - t - 1), TestY(y, t), TestX(x, i));
    Wrap(q - 1);
  }

  lemma TopNatural(y: MpInt, t: nat)
    requires Normalised(y, t)
    ensures 0 < At(y.dp, t) < B
  {}

  /** The body of the inner loop: is q * {y[t], y[t-1]} more than {x[i], x[i-1], x[i-2]}? */
  method TestDigit(x: MpInt, y: MpInt, t1: MpInt, t2: MpInt, i: nat, t: nat, q: nat) returns (again: bool)
    requires t < i <= x.used && Normalised(y, t) && Partial(x, y, i, t) && q < B
    requires t1.Loose() && |t1.dp| >= 2 && t2.Loose() && 3 <= |t2.dp| && t2.used <= 3
    requires t1 != t2 && t1 !in {x, y} && t2 !in {x, y}
    modifies t1, t2
    ensures again ==> q * TestY(y, t) > TestX(x, i)
    ensures !again ==> q * TestY(y, t) <= TestX(x, i) || q * TestY(y, t) < B * B
    ensures t1.Loose() && |t1.dp| >= 2 && t2.Loose() && 3 <= |t2.dp| && t2.used <= 3
  {
    TestDigits(x, y, i, t);
    hide Val, Low, BP, Due;
    PairDigits(t1, if t < 1 then 0 else y.dp[t - 1], y.dp[t]);
    MulD(t1, q, t1);
    TripleDigits(t2, if i < 2 then 0 else x.dp[i - 2], x.dp[i - 1], x.dp[i]);
    MagBounds(t1);
    ShortProduct(t1.used, q, TestY(y, t));
    var r := CmpMag(t1, t2);
    again := r == Gt;
  }

  /** The guess is lowered while the three-digit test finds it too big. */
  method Correct(x: MpInt, y: MpInt, t1: MpInt, t2: MpInt, i: nat, t: nat, guess: nat) returns (q: nat)
    requires t < i <= x.used && Normalised(y, t) && Partial(x, y, i, t)
    requires Due(x.Mag(), y.Mag(), i - t - 1) <= guess < B
    requires guess * At(y.dp, t) <= At(x.dp, i) * B + At(x.dp, i - 1)
    requires t1.Loose() && |t1.dp| >= 2 && t2.Loose() && 3 <= |t2.dp| && t2.used <= 3
    requires t1 != t2 && t1 !in {x, y} && t2 !in {x, y}
    modifies t1, t2
    ensures Due(x.Mag(), y.Mag(), i - t - 1) <= q <= Due(x.Mag(), y.Mag(), i - t - 1) + 1 && q < B
    ensures t1.Loose() && |t1.dp| >= 2 && t2.Loose() && 3 <= |t2.dp| && t2.used <= 3
  {
    hide Val, Low, BP, Due, Partial, Normalised;
    q := (guess + 1) % B;
    Wrap(guess);
    ghost var next := guess;
    var again := true;
    while again
      invariant t1.Loose() && |t1.dp| >= 2 && t2.Loose() && 3 <= |t2.dp| && t2.used <= 3
      invariant 0 <= q < B && Due(x.Mag(), y.Mag(), i - t - 1) <= next <= guess
      invariant again ==> (q - 1) % B == next
      invariant !again ==> q == next && (q * TestY(y, t) <= TestX(x, i) || q * TestY(y, t) < B * B)
      decreases again, next
      modifies t1, t2
    {
      q := (q - 1) % B;
      again := TestDigit(x, y, t1, t2, i, t, q);
      if again {
        AboveDue(x, y, i, t, q);
        next := q - 1;
      }
    }
    assert q * At(y.dp, t) <= guess * At(y.dp, t) by { TopNatural(y, t); MulMono(q, guess, At(y.dp, t)); }
    OneTooBig(x, y, i, t, q);
  }

  lemma StepSign(Q: int, qd: int, X: int, M: int)
    requires Q <= qd <= Q + 1 && Q * M <= X < (Q + 1) * M
    ensures X - qd * M < 0 <==> qd == Q + 1
    ensures qd == Q + 1 ==> X - qd * M + M == X - Q * M
    ensures 0 <= X - Q * M < M
  {
    MulDist(Q, 1, M);
  }

  /** Steps 3.3 and after: subtract the multiple, and add one divisor back if that went too far. */
  method SubtractMultiple(x: MpInt, y: MpInt, t1: MpInt, q: MpInt, i: nat, t: nat, qd: nat)
    requires t < i <= x.used && Normalised(y, t) && Partial(x, y, i, t) && t1.Loose() && q.Loose()
    requires var Q := Due(x.Mag(), y.Mag(), i - t - 1); Q <= qd <= Q + 1 && qd < B
    requires x !in {y, t1, q} && t1 !in {y, q} && q != y
    requires i - t - 1 < |q.dp|
    modifies x, t1, q`dp
    ensures x.Valid() && x.sign == ZPos && |x.dp| >= old(|x.dp|) && t1.Loose() && |t1.dp| >= old(|t1.dp|)
    ensures var Q := Due(old(x.Mag()), y.Mag(), i - t - 1);
      && x.Mag() == old(x.Mag()) - Q * (y.Mag() * BP(i - t - 1))
      && 0 <= x.Mag() < y.Mag() * BP(i - t - 1)
      && q.dp == old(q.dp)[i - t - 1 := Q]
  {
    PartialMeans(x, y, i, t);
    var j := i - t - 1;
    ghost var X, Y, Q := x.Mag(), y.Mag(), Due(x.Mag(), y.Mag(), j);
    ghost var M := Y * BP(j);
    DueMeans(X, Y, j);
    StepSign(Q, qd, X, M);
    hide *;
    q.dp := q.dp[j := qd];
    Multiple(y, qd, j, t1);
    Sub(x, t1, x);
    SignOf(x);
    if x.sign == Neg {
      AddBack(x, y, t1, j);
      Wrap(qd - 1);
      q.dp := q.dp[j := (q.dp[j] - 1) % B];
      SignOf(x);
    }
  }

  lemma SignOf(x: MpInt)
    requires x.Valid()
    ensures x.sign == Neg <==> x.Int() < 0
    ensures x.sign == ZPos ==> x.Mag() == x.Int()
  {
    MagBounds(x);
  }

  method AddBack(x: MpInt, y: MpInt, t1: MpInt, j: nat)
    requires x.Valid() && y.Valid() && y.sign == ZPos && y.used > 0 && t1.Loose() && t1 != y && x !in {t1, y}
    modifies x, t1
    ensures x.Valid() && |x.dp| >= old(|x.dp|) && t1.Loose() && |t1.dp| >= old(|t1.dp|)
    ensures x.Int() == old(x.Int()) + y.Mag() * BP(j)
  {
    hide Val, Low, BP, DigitsOk;
    BPNone();
    Copy(y, t1);
    Lshd(t1, j);
    Add(x, t1, x);
  }

  /** t1 = y * qd * BP(j); when the digit is zero, `used` may be left at j. */
  method Multiple(y: MpInt, qd: nat, j: nat, t1: MpInt)
    requires y.Valid() && y.sign == ZPos && y.used > 0 && IsDigit(qd) && t1.Loose() && t1 != y
    modifies t1
    ensures t1.Loose() && t1.sign == ZPos && |t1.dp| >= old(|t1.dp|)
    ensures t1.Mag() == qd * (y.Mag() * BP(j))
    ensures t1.Valid() || (t1.Mag() == 0 && t1.used == j)
  {
    hide Val, Low, BP, DigitsOk;
    MulD(y, qd, t1);
    MagBounds(t1);
    BPNone();
    ghost var m := t1.Mag();
    Lshd(t1, j);
    assert BP(j) * (qd * y.Mag()) == qd * (y.Mag() * BP(j)) by { MulAssoc(qd, y.Mag(), BP(j)); }
  }

  /** Both operands are scaled so that the divisor's top digit has DIGIT_BIT - 1 bits. */
  method Normalise(x: MpInt, y: MpInt) returns (norm: nat)
    requires x.Valid() && y.Valid() && y.used > 0 && x.sign == ZPos && y.sign == ZPos && x != y
    modifies x, y
    ensures norm < DIGIT_BIT && x.Valid() && x.sign == ZPos
    ensures y.used > 0 && Normalised(y, y.used - 1)
    ensures x.Mag() == Pow(2, norm) * old(x.Mag()) && y.Mag() == Pow(2, norm) * old(y.Mag())
  {
    hide *;
    ValidIsLoose(x);
    ValidIsLoose(y);
    MagBounds(x);
    MagBounds(y);
    BPPositive(y.used - 1);
    SignOf(x);
    SignOf(y);
    ghost var X, Y := x.Mag(), y.Mag();
    var bits := CountBits(y);
    NoBits(y, bits);
    norm := bits % DIGIT_BIT;
    if norm < DIGIT_BIT - 1 {
      norm := DIGIT_BIT - 1 - norm;
      NormBits(bits, norm, Y);
      MulNonNegative(Pow(2, norm), X);
      MulNonNegative(Pow(2, norm), Y);
      Mul2d(x, norm, x);
      Mul2d(y, norm, y);
    } else {
      norm := 0;
      NormBits(bits, norm, Y);
    }
    SignOf(x);
    SignOf(y);
    NormalBits(y, bits + norm);
  }

  lemma NoBits(y: MpInt, r: nat)
    requires y.used > 0 && (y.used - 1) * DIGIT_BIT < r
    ensures r > 0
  {
    MulNonNegative(y.used - 1, DIGIT_BIT);
  }

  lemma NormBits(r: nat, norm: nat, m: int)
    requires r > 0 && Pow(2, r - 1) <= m < Pow(2, r)
    requires norm == if r % DIGIT_BIT < DIGIT_BIT - 1 then DIGIT_BIT - 1 - r % DIGIT_BIT else 0
    ensures (r + norm) % DIGIT_BIT == DIGIT_BIT - 1
    ensures Pow(2, r + norm - 1) <= Pow(2, norm) * m < Pow(2, r + norm) && Pow(2, 0) == 1
  {
    DivModDef(r, DIGIT_BIT);
    DivModUnique(r + norm, DIGIT_BIT, r / DIGIT_BIT, DIGIT_BIT - 1);
    PowAdd(2, norm, r - 1);
    PowAdd(2, norm, r);
    MulMono(Pow(2, r - 1), m, Pow(2, norm));
    MulMonoStrict(m, Pow(2, r), Pow(2, norm));
  }

  /** A bit count of DIGIT_BIT - 1 modulo DIGIT_BIT puts the top bit just below the top of its digit. */
  lemma NormalBits(y: MpInt, r: nat)
    requires y.Valid() && y.sign == ZPos && r % DIGIT_BIT == DIGIT_BIT - 1
    requires Pow(2, r - 1) <= y.Mag() < Pow(2, r)
    ensures y.used > 0 && Normalised(y, y.used - 1)
  {
    var m := r / DIGIT_BIT;
    DivModDef(r, DIGIT_BIT);
    RadixPower(m);
    RadixPower(m + 1);
    PowAdd(2, DIGIT_BIT - 2, m * DIGIT_BIT);
    PowMono(2, r, (m + 1) * DIGIT_BIT);
    WidthBound();
    MagBounds(y);
    MulMono(1, Pow(2, DIGIT_BIT - 2), BP(m));
    if y.used > m + 1 { BPMono(m + 1, y.used - 1); }
    if y.used < m + 1 { BPMono(y.used, m); }
    MulMono(1, 1, B);
    NormalByMag(y, m);
  }

  lemma NormalByMag(y: MpInt, t: nat)
    requires y.Valid() && y.sign == ZPos && y.used == t + 1
    ensures Normalised(y, t) <==> Pow(2, DIGIT_BIT - 2) * BP(t) <= y.Mag()
  {
    WidthBound();
    var p := Pow(2, DIGIT_BIT - 2);
    UsedValue(y, t + 1);
    TopDigit(y.dp, t + 1);
    BPPositive(t);
    if p <= At(y.dp, t) { MulMono(p, At(y.dp, t), BP(t)); }
    MulCancel(p, At(y.dp, t) + 1, BP(t));
  }

  /** Left-shifting the divisor and shifting it back. */
  method Unshift(y: MpInt, s: nat, ghost t: nat, ghost Y: int)
    requires y.Valid() && y.sign == ZPos && y.used == t + 1 + s && y.Mag() == BP(s) * Y
    requires Pow(2, DIGIT_BIT - 2) * BP(t) <= Y
    modifies y
    ensures Normalised(y, t) && y.Mag() == Y
  {
    hide Val, Low, BP, Pow;
    BPNone();
    LowBound(y.dp, s);
    Rshd(y, s);
    if s > 0 { DivModUnique(BP(s) * Y, BP(s), y.Mag(), Low(old(y.dp), s)); DivModUnique(BP(s) * Y, BP(s), Y, 0); }
    NormalByMag(y, t);
  }

  lemma FewRounds(x: MpInt, Y: int, n: nat, t: nat)
    requires x.Valid() && x.used == n + 1 && t <= n && Pow(2, DIGIT_BIT - 2) * BP(t) <= Y
    ensures x.Mag() < 4 * (BP(n - t) * Y)
  {
    var p, s := Pow(2, DIGIT_BIT - 2), n - t;
    MagBounds(x);
    WidthBound();
    BPAdd(t, s);
    BPStep(n);
    BPPositive(s);
    MulAssoc(4, p, BP(n));
    FewMultiples(p, BP(t), BP(s), Y);
  }

  lemma FewMultiples(p: int, t: int, s: int, y: int)
    requires p * t <= y && s > 0
    ensures p * (t * s) <= s * y
  {
    MulMono(p * t, y, s);
    MulAssoc(p, t, s);
  }

  lemma OneMore(k: nat, M: int, X: int)
    requires X - k * M >= M > 0 && X < 4 * M
    ensures (k + 1) * M == k * M + M && k + 1 <= 3
  {
    MulDist(k, 1, M);
    if k + 1 >= 4 { MulMono(4, k + 1, M); }
  }

  /** At most three rounds are needed for the top quotient digit. */
  method Rounds(x: MpInt, y: MpInt, q: MpInt, j: nat, ghost X: int, ghost M: int) returns (ghost k: nat)
    requires x.Valid() && y.Valid() && x.Int() == X >= 0 && y.Int() == M > 0 && X < 4 * M
    requires x != y && q != x && q != y && j < |q.dp| && q.dp[j] == 0
    modifies x, q`dp
    ensures x.Valid() && |x.dp| >= old(|x.dp|) && x.Int() == X - k * M && 0 <= x.Int() < M
    ensures k <= 3 && q.dp == old(q.dp)[j := k]
  {
    hide *;
    k := 0;
    assert old(q.dp)[j := 0] == old(q.dp);
    var r := Cmp(x, y);
    CompareMeans(x.Int(), y.Int());
    while r != Lt
      invariant x.Valid() && |x.dp| >= old(|x.dp|) && x.Int() == X - k * M && x.Int() >= 0
      invariant (r != Lt <==> x.Int() >= M) && k <= 3
      invariant q.dp == old(q.dp)[j := k]
      decreases 4 - k
      modifies x, q`dp
    {
      q.dp := q.dp[j := q.dp[j] + 1];
      OneMore(k, M, X);
      ValidIsLoose(x);
      ValidIsLoose(y);
      Sub(x, y, x);
      k := k + 1;
      r := Cmp(x, y);
      CompareMeans(x.Int(), y.Int());
    }
  }

  lemma CompareMeans(x: int, y: int)
    ensures Compare(x, y) != Lt <==> x >= y
  {}

  /** While x >= y * BP(n - t), subtract that and count. */
  method TopQuotientDigit(x: MpInt, y: MpInt, q: MpInt, n: nat, t: nat)
    requires x.Valid() && x.sign == ZPos && x.used == n + 1 && t <= n
    requires Normalised(y, t) && x != y && q != x && q != y
    requires q.Loose() && n - t < q.used && forall k: nat :: k < |q.dp| ==> q.dp[k] == 0
    modifies x, y, q`dp
    ensures Normalised(y, t) && y.Mag() == old(y.Mag())
    ensures x.Valid() && x.sign == ZPos && |x.dp| >= old(|x.dp|) && x.Mag() < y.Mag() * BP(n - t)
    ensures q.Loose() && q.used == old(q.used) && forall k: nat :: k < |q.dp| && k != n - t ==> q.dp[k] == 0
    ensures q.Mag() * y.Mag() + x.Mag() == old(x.Mag())
  {
    hide Val, Low, BP, Pow;
    NormalByMag(y, t);
    ghost var X, Y := x.Mag(), y.Mag();
    FewRounds(x, Y, n, t);
    MagBounds(x);
    MagBounds(y);
    BPNone();
    BPPositive(n - t);
    MulPositive(BP(n - t), Y);
    Lshd(y, n - t);
    ghost var k := Rounds(x, y, q, n - t, X, BP(n - t) * Y);
    SignOf(x);
    Unshift(y, n - t, t, Y);
    OneDigit(old(q.dp), n - t, k, Y);
  }

  lemma OneDigit(s: seq<int>, j: nat, k: nat, Y: int)
    requires j < |s| && k <= 3 && forall k: nat :: k < |s| ==> s[k] == 0
    ensures Val(s[j := k]) * Y == k * (BP(j) * Y)
  {
    LowZeros(s, 0, |s|);
    LowUpdate(s, j, k, |s|);
    MulAssoc(k, BP(j), Y);
  }

  /** Where the digit loop stands: quotient digits from i - t on are final, those below are zero. */
  ghost predicate Dividing(x: MpInt, y: MpInt, q: MpInt, i: nat, t: nat, X0: int, Y: int)
    requires t < i
    reads x, y, q
  {
    && Normalised(y, t) && y.Mag() == Y && x !in {y, q} && q != y
    && Partial(x, y, i, t) && DigitsOk(q.dp) && i - t <= |q.dp|
    && (forall k: nat :: k < i - t ==> q.dp[k] == 0)
    && q.Mag() * Y + x.Mag() == X0
  }

  lemma DigitPlaced(s: seq<int>, j: nat, Q: int, Y: int, X: int, X0: int)
    requires j < |s| && s[j] == 0 && Val(s) * Y + X == X0
    ensures Val(s[j := Q]) * Y + (X - Q * (Y * BP(j))) == X0
  {
    LowUpdate(s, j, Q, |s|);
    assert Val(s[j := Q]) == Val(s) + Q * BP(j);
    MulDist(Val(s), Q * BP(j), Y);
    MulAssoc(Q, BP(j), Y);
  }

  /** One round of step 3. */
  method QuotientDigit(x: MpInt, y: MpInt, q: MpInt, t1: MpInt, t2: MpInt, i: nat, t: nat, ghost X0: int, ghost Y: int)
    requires t < i && Dividing(x, y, q, i, t, X0, Y) && q.Loose() && i - t - 1 < q.used
    requires t1.Loose() && |t1.dp| >= 2 && t2.Loose() && 3 <= |t2.dp| && t2.used <= 3
    requires t1 != t2 && t1 !in {x, y, q} && t2 !in {x, y, q}
    modifies x, t1, t2, q`dp
    ensures q.Loose() && q.used == old(q.used)
    ensures y.Mag() == Y && Normalised(y, t) && DigitsOk(q.dp) && |q.dp| == old(|q.dp|) && q.Mag() * Y + x.Mag() == X0
    ensures forall k: nat :: k < i - t - 1 ==> q.dp[k] == 0
    ensures x.Valid() && x.sign == ZPos && |x.dp| >= old(|x.dp|) && x.Mag() < Y * BP(i - t - 1)
    ensures t1.Loose() && |t1.dp| >= 2 && t2.Loose() && 3 <= |t2.dp| && t2.used <= 3
  {
    ghost var Q, X := Due(x.Mag(), y.Mag(), i - t - 1), x.Mag();
    PartialMeans(x, y, i, t);
    DigitPlaced(q.dp, i - t - 1, Q, Y, X, X0);
    if i > x.used {
      DueMeans(X, Y, i - t - 1);
      return;
    }
    hide Val, Low, BP, Due;
    var guess := Guess(x, y, i, t);
    var qd := Correct(x, y, t1, t2, i, t, guess);
    SubtractMultiple(x, y, t1, q, i, t, qd);
  }

  /** Step 3: for i from n down to t + 1. */
  method QuotientDigits(x: MpInt, y: MpInt, q: MpInt, n: nat, t: nat)
    requires t <= n && q.Loose() && n - t <= q.used
    requires Normalised(y, t) && x !in {y, q} && q != y
    requires x.Valid() && x.sign == ZPos && n < |x.dp| && x.Mag() < y.Mag() * BP(n - t)
    requires forall k: nat :: k < n - t ==> q.dp[k] == 0
    modifies x, q`dp
    ensures q.Loose() && q.used == old(q.used) && x.Valid() && x.sign == ZPos && x.Mag() < y.Mag()
    ensures q.Mag() * y.Mag() + x.Mag() == old(q.Mag()) * y.Mag() + old(x.Mag())
  {
    hide Val, Low, BP;
    ghost var X0, Y := q.Mag() * y.Mag() + x.Mag(), y.Mag();
    var t1 := new MpInt();
    var t2 := new MpInt();
    var i := n;
    while i >= t + 1
      invariant t <= i <= n && q.Loose() && q.used == old(q.used) && n < |x.dp|
      invariant Normalised(y, t) && y.Mag() == Y && q.Mag() * Y + x.Mag() == X0
      invariant forall k: nat :: k < i - t ==> q.dp[k] == 0
      invariant x.Valid() && x.sign == ZPos && x.Mag() < Y * BP(i - t)
      invariant t1.Loose() && |t1.dp| >= 2 && t2.Loose() && 3 <= |t2.dp| && t2.used <= 3
      modifies x, t1, t2, q`dp
    {
      QuotientDigit(x, y, q, t1, t2, i, t, X0, Y);
      i := i - 1;
    }
    BPNone();
  }

  function Abs(x: int): nat { if x < 0 then -x else x }

  /** What division is to deliver: the quotient is rounded towards zero. */
  ghost predicate IsDivision(a: int, b: int, c: int, d: int) {
    a == c * b + d && Abs(d) < Abs(b) && (d == 0 || (d < 0 <==> a < 0))
  }

  function Quot(a: int, b: int): int
    requires b != 0
  {
    var q := Abs(a) / Abs(b);
    if (a < 0) == (b < 0) then q else -q
  }

  function Rem(a: int, b: int): int
    requires b != 0
  {
    var r := Abs(a) % Abs(b);
    if a < 0 then -r else r
  }

  lemma QuotientSigns(q: int, y: int)
    ensures (-q) * y == -(q * y) && (-q) * (-y) == q * y && q * (-y) == -(q * y)
  {}

  lemma QuotRem(a: int, b: int)
    requires b != 0
    ensures IsDivision(a, b, Quot(a, b), Rem(a, b))
  {
    var x: int, y: int := Abs(a), Abs(b);
    DivModDef(x, y);
    QuotientSigns(x / y, y);
  }

  lemma SmallMultiple(k: int, b: int)
    requires b != 0 && Abs(k * b) < Abs(b)
    ensures k == 0
  {
    if k >= 1 {
      if b > 0 { MulMono(1, k, b); } else { MulMono(1, k, -b); }
    }
    if k <= -1 {
      if b > 0 { MulMono(k, -1, b); } else { MulMono(k, -1, -b); }
    }
  }

  /** Nothing else satisfies the specification. */
  lemma DivisionUnique(a: int, b: int, c: int, d: int, c': int, d': int)
    requires b != 0 && IsDivision(a, b, c, d) && IsDivision(a, b, c', d')
    ensures c == c' && d == d'
  {
    MulDist(c, c', b);
    SmallMultiple(c - c', b);
  }

  /** From the scaled magnitudes back to the signed operands. */
  lemma Unscale(p: int, a: int, b: int, q: int, X: int)
    requires p > 0 && b != 0 && q >= 0 && q * (p * Abs(b)) + X == p * Abs(a) && 0 <= X < p * Abs(b)
    ensures var r := X / p; 0 <= r && Abs(a) == q * Abs(b) + r && r < Abs(b)
  {
    var r := Abs(a) - q * Abs(b);
    assert q * (p * Abs(b)) == p * (q * Abs(b)) by { MulAssoc(q, p, Abs(b)); MulAssoc(p, q, Abs(b)); }
    assert X == r * p by { MulDist(Abs(a), q * Abs(b), p); }
    MulCancel(-1, r, p);
    MulCancel(r, Abs(b), p);
    DivModUnique(X, p, r, 0);
  }

  lemma SignedDivision(a: int, b: int, q: int, r: int)
    requires b != 0 && q >= 0 && r >= 0 && Abs(a) == q * Abs(b) + r && r < Abs(b)
    ensures Quot(a, b) == if (a < 0) == (b < 0) then q else -q
    ensures Rem(a, b) == if a < 0 then -r else r
    ensures Abs(a) >= Abs(b) ==> q > 0
  {
    DivModUnique(Abs(a), Abs(b), q, r);
  }

  lemma ShorterDivision(a: int, b: int)
    requires b != 0 && Abs(a) < Abs(b)
    ensures Quot(a, b) == 0 && Rem(a, b) == a
  {
    DivModUnique(Abs(a), Abs(b), 0, Abs(a));
  }

  /** Division of magnitudes, |a| >= |b|: scale, divide, and leave the remainder scaled. */
  method DivideMagnitudes(x: MpInt, y: MpInt, q: MpInt, ghost a: int, ghost b: int) returns (norm: nat)
    requires x.Valid() && y.Valid() && x.sign == ZPos && y.sign == ZPos && x.Mag() == Abs(a) && y.Mag() == Abs(b)
    requires b != 0 && Abs(a) >= Abs(b) && x !in {y, q} && q != y
    requires q.Loose() && x.used + 1 <= q.used && forall k: nat :: k < |q.dp| ==> q.dp[k] == 0
    modifies x, y, q`dp
    ensures q.Loose() && q.used == old(q.used) && x.Valid() && x.sign == ZPos
    ensures q.Mag() >= 0 && Abs(a) == q.Mag() * Abs(b) + x.Mag() / Pow(2, norm) && 0 <= x.Mag() / Pow(2, norm) < Abs(b)
  {
    hide Low, BP, Pow, Val;
    MagBounds(x);
    MagBounds(y);
    norm := Normalise(x, y);
    ScaledSizes(x, y, old(x.used), norm, Abs(a), Abs(b));
    var n, t := x.used - 1, y.used - 1;
    TopQuotientDigit(x, y, q, n, t);
    QuotientDigits(x, y, q, n, t);
    QuotientNatural(q);
    MagBounds(x);
    Unscale(Pow(2, norm), a, b, q.Mag(), x.Mag());
  }

  lemma QuotientNatural(q: MpInt)
    requires DigitsOk(q.dp)
    ensures q.Mag() >= 0
  {
    LowBound(q.dp, |q.dp|);
  }

  lemma ScaledSizes(x: MpInt, y: MpInt, used: nat, norm: nat, a: int, b: int)
    requires x.Ok() && y.Ok() && y.used > 0 && norm < DIGIT_BIT && x.Mag() == Pow(2, norm) * a && y.Mag() == Pow(2, norm) * b
    requires a >= b && 0 <= a < BP(used)
    ensures 0 < x.used <= used + 1 && y.used <= x.used
  {
    hide Low, Pow, BP;
    ScaledBounds(used, norm, a, b);
    OrderByUsed(y, x);
    MagBounds(x);
    MagBounds(y);
    BPPositive(y.used - 1);
    if x.used > used + 1 { BPMono(used + 1, x.used - 1); }
  }

  lemma ScaledBounds(used: nat, norm: nat, a: int, b: int)
    requires norm < DIGIT_BIT && a >= b && 0 <= a < BP(used)
    ensures Pow(2, norm) * b <= Pow(2, norm) * a < BP(used + 1)
  {
    PowMono(2, norm, DIGIT_BIT);
    assert B == Pow(2, DIGIT_BIT);
    hide Pow, BP;
    MulMono(b, a, Pow(2, norm));
    MulMono(Pow(2, norm), B, a);
    MulMonoStrict(a, BP(used), B);
    BPStep(used);
  }

  /** mp_div: a = c * b + d.  Either result may be left out, and either may replace an operand. */
  method Div(a: MpInt, b: MpInt, c: MpInt?, d: MpInt?) returns (res: Status)
    requires a.Valid() && b.Valid() && (c != null ==> c.Valid() && c != d) && (d != null ==> d.Valid())
    modifies c, d
    ensures res == if old(b.Int()) == 0 then BadValue else Okay
    ensures c != null ==> c.Valid() && c.Int() == if old(b.Int()) == 0 then old(c.Int()) else Quot(old(a.Int()), old(b.Int()))
    ensures d != null ==> d.Valid() && d.Int() == if old(b.Int()) == 0 then old(d.Int()) else Rem(old(a.Int()), old(b.Int()))
  {
    hide Low, BP, Pow, Val, Quot, Rem, DigitsOk;
    MagBounds(a);
    MagBounds(b);
    if b.used == 0 { return BadValue; }
    res := Okay;
    var less := CmpMag(a, b);
    if less == Lt {
      ShorterDivision(a.Int(), b.Int());
      if d != null { Copy(a, d); }
      if c != null { Zero(c); }
      return;
    }
    DivLonger(a, b, c, d);
  }

  /** The general case of mp_div. */
  method DivLonger(a: MpInt, b: MpInt, c: MpInt?, d: MpInt?)
    requires a.Valid() && b.Valid() && (c != null ==> c.Valid() && c != d) && (d != null ==> d.Valid())
    requires b.Mag() != 0 && a.Mag() >= b.Mag()
    modifies c, d
    ensures c != null ==> c.Valid() && c.Int() == Quot(old(a.Int()), old(b.Int()))
    ensures d != null ==> d.Valid() && d.Int() == Rem(old(a.Int()), old(b.Int()))
  {
    hide Low, BP, Pow, Val, Quot, Rem, DigitsOk, At, Abs;
    ghost var A, D := a.Int(), b.Int();
    SignMeans(a);
    SignMeans(b);
    var q := new MpInt.Sized(a.used + 2);
    q.used := a.used + 2;
    var x := Magnitude(a);
    var y := Magnitude(b);
    var neg := if a.sign == b.sign then ZPos else Neg;
    var norm := DivideMagnitudes(x, y, q, A, D);
    SignedDivision(A, D, q.Mag(), x.Mag() / Pow(2, norm));
    x.sign := if x.used == 0 then ZPos else a.sign;
    NoRemainder(x, Pow(2, norm));
    if c != null { DeliverQuotient(q, c, neg, Quot(A, D)); }
    if d != null { DeliverRemainder(x, d, norm, Rem(A, D)); }
  }

  /** A copy without the sign. */
  method Magnitude(a: MpInt) returns (x: MpInt)
    requires a.Valid()
    ensures fresh(x) && x.Valid() && x.sign == ZPos && x.Mag() == Abs(a.Int()) == a.Mag() && x.used == a.used
  {
    hide Val, DigitsOk;
    x := new MpInt.Copied(a);
    MagBounds(a);
    MagBounds(x);
    x.sign := ZPos;
  }

  lemma NoRemainder(x: MpInt, p: int)
    requires x.Ok() && p > 0
    ensures x.used == 0 ==> x.Mag() / p == 0
  {
    MagBounds(x);
    DivModUnique(0, p, 0, 0);
  }

  lemma SignMeans(a: MpInt)
    requires a.Valid()
    ensures a.Int() < 0 <==> a.sign == Neg
  {
    MagBounds(a);
  }

  method DeliverQuotient(q: MpInt, c: MpInt, neg: Sign, ghost value: int)
    requires q.Loose() && q != c && value == Signed(neg, q.Mag()) && value != 0
    modifies q, c
    ensures c.Valid() && c.Int() == value
  {
    Clamp(q);
    MagBounds(q);
    Exch(q, c);
    c.sign := neg;
  }

  method DeliverRemainder(x: MpInt, d: MpInt, norm: nat, ghost value: int)
    requires x.Valid() && x != d && d.Valid() && value == Signed(x.sign, x.Mag() / Pow(2, norm))
    modifies x, d
    ensures d.Valid() && d.Int() == value
  {
    hide Low, BP, Pow, Val, DigitsOk, At, Signed;
    DivideByOne(x.Mag());
    Div2d(x, norm, x, null);
    SignedZero(x);
    Exch(x, d);
  }

  lemma DivideByOne(m: int)
    ensures Pow(2, 0) == 1 && m / 1 == m
  {}

  lemma SignedZero(x: MpInt)
    requires x.Valid()
    ensures x.Int() == Signed(x.sign, x.Mag())
    ensures x.used == 0 ==> forall s :: Signed(s, x.Mag()) == x.Int()
  {
    MagBounds(x);
  }
}
