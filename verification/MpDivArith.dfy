/** The arithmetic of one step of schoolbook division: how far off a quotient digit guessed
    from leading digits can be.  X is the partial remainder, Y the divisor, both non-negative;
    W and N are the weights of the divisor's top digit and of the quotient digit. */
module MpDivArith {
  import opened Arith
  import opened Digits

  /** Two leading digits `v` of Y, on the scale of its top digit. */
  ghost predicate TopTwo(Y: int, W: int, v: int) { v * W <= Y * B < (v + 1) * W }

  /** Two leading digits `x2` and three leading digits `x3` of X. */
  ghost predicate LeadTwo(X: int, M: int, x2: int) { x2 * M <= X < (x2 + 1) * M }
  ghost predicate LeadThree(X: int, M: int, x3: int) { x3 * (M * B) <= X * B * B < (x3 + 1) * (M * B) }

  lemma Scale(a: int, b: int, c: int, d: int)
    requires a <= b && 0 <= c && c * b <= d
    ensures c * a <= d
  {
    MulMono(a, b, c);
  }

  /** The first guess is not too small. */
  lemma GuessNotSmall(Q: int, X: int, Y: int, W: int, N: int, y: int, x2: int)
    requires Q >= 0 && W > 0 && N > 0
    requires Q * (Y * N) <= X && y * W <= Y && X < (x2 + 1) * (W * N)
    ensures Q * y <= x2
  {
    MulMono(y * W, Y, N);
    MulAssoc(y, W, N);
    Scale(y * (W * N), Y * N, Q, X);
    MulAssoc(Q, y, W * N);
    MulPositive(W, N);
    MulCancel(Q * y, x2 + 1, W * N);
  }

  /** A guess that the three-digit test finds too big is too big. */
  lemma TestIsSafe(Q: int, X: int, Y: int, W: int, N: int, v: int, x3: int)
    requires Q >= 0 && W > 0 && N > 0
    requires Q * (Y * N) <= X && TopTwo(Y, W, v) && LeadThree(X, W * N, x3)
    ensures Q * v <= x3
  {
    var M := W * N * B;
    MulMono(v * W, Y * B, N * B);
    assert v * W * (N * B) == v * M by { MulAssoc(v, W, N * B); MulAssoc(W, N, B); }
    assert Y * B * (N * B) == Y * N * B * B by { Regroup(Y, N); }
    Scale(v * M, Y * N * B * B, Q, Q * (Y * N * B * B));
    MulAssoc(Q, v, M);
    assert Q * (Y * N * B * B) == Q * (Y * N) * B * B by { Regroup2(Q, Y * N); }
    MulMono(Q * (Y * N), X, B);
    MulMono(Q * (Y * N) * B, X * B, B);
    MulPositive(W, N);
    MulPositive(W * N, B);
    MulCancel(Q * v, x3 + 1, M);
  }

  lemma Regroup(y: int, n: int)
    ensures y * B * (n * B) == y * n * B * B
  {
    MulAssoc(y, B, n * B);
    assert B * (n * B) == n * (B * B) by { MulAssoc(n, B, B); }
    MulAssoc(y, n, B * B);
    MulAssoc(y * n, B, B);
  }

  lemma Regroup2(q: int, z: int)
    ensures q * (z * B * B) == q * z * B * B
  {
    MulAssoc(q, z * B, B);
    MulAssoc(q, z, B);
  }

  /** A guess that passes the test is at most one too big. */
  lemma PassedTest(q: int, X: int, Y: int, W: int, N: int, v: int, x3: int)
    requires 1 <= q <= v + 1 && W > 0 && N > 0
    requires q * v <= x3 && TopTwo(Y, W, v) && LeadThree(X, W * N, x3)
    ensures (q - 1) * (Y * N) <= X
  {
    var M := W * N * B;
    MulPositive(W, N);
    MulPositive(W * N, B);
    MulMono(Y * B, (v + 1) * W, N * B);
    assert (v + 1) * W * (N * B) == (v + 1) * M by { MulAssoc(v + 1, W, N * B); MulAssoc(W, N, B); }
    assert Y * B * (N * B) == Y * N * B * B by { Regroup(Y, N); }
    Scale(Y * N * B * B, (v + 1) * M, q - 1, (q - 1) * ((v + 1) * M));
    MulAssoc(q - 1, v + 1, M);
    assert (q - 1) * (v + 1) == q * v + q - v - 1;
    MulMono((q - 1) * (v + 1), x3, M);
    assert (q - 1) * (Y * N * B * B) == (q - 1) * (Y * N) * B * B by { Regroup2(q - 1, Y * N); }
    MulCancel((q - 1) * (Y * N) * B, X * B, B);
    MulCancel((q - 1) * (Y * N), X, B);
  }

  /** A small guess is at most one too big even without the test. */
  lemma SmallGuess(q: int, X: int, Y: int, W: int, N: int, y: int, x2: int)
    requires 1 <= q <= y + 1 && W > 0 && N > 0
    requires q * y <= x2 && Y < (y + 1) * W && x2 * (W * N) <= X
    ensures (q - 1) * (Y * N) <= X
  {
    MulPositive(W, N);
    MulMono(Y, (y + 1) * W, N);
    MulAssoc(y + 1, W, N);
    Scale(Y * N, (y + 1) * (W * N), q - 1, (q - 1) * ((y + 1) * (W * N)));
    MulAssoc(q - 1, y + 1, W * N);
    assert (q - 1) * (y + 1) == q * y + q - y - 1;
    MulMono((q - 1) * (y + 1), x2, W * N);
  }

  /** The test is cut short only for guesses below four, the divisor being normalised. */
  lemma CutShort(q: int, y: int, v: int)
    requires q >= 0 && 4 * y >= B && v >= y * B && q * v < B * B
    ensures q < 4
  {
    MulMono(B, 4 * y, B);
    assert B * B <= 4 * v;
    if q >= 4 { MulMono(4, q, v); }
  }

  /** Either way the guess ends at most one above the quotient digit. */
  lemma AtMostOneTooBig(q: int, X: int, Y: int, W: int, N: int, y: int, x2: int, v: int, x3: int)
    requires 1 <= q < B && W > 0 && N > 0 && 4 * y >= B && v >= y * B
    requires q * y <= x2 && Y < (y + 1) * W && LeadTwo(X, W * N, x2)
    requires TopTwo(Y, W, v) && LeadThree(X, W * N, x3)
    requires q * v <= x3 || q * v < B * B
    ensures (q - 1) * (Y * N) <= X
  {
    if q * v <= x3 {
      MulMono(32, y, B);
      PassedTest(q, X, Y, W, N, v, x3);
    } else {
      CutShort(q, y, v);
      SmallGuess(q, X, Y, W, N, y, x2);
    }
  }

  /** The weights of a partial remainder's leading digits. */
  lemma Leading(s: seq<int>, i: nat)
    requires DigitsOk(s) && i > 0
    ensures LeadTwo(Low(s, i + 1), BP(i - 1), At(s, i) * B + At(s, i - 1))
    ensures LeadThree(Low(s, i + 1), BP(i - 1), At(s, i) * (B * B) + At(s, i - 1) * B + (if i < 2 then 0 else At(s, i - 2)))
  {
    var a, b, c, w := At(s, i), At(s, i - 1), if i < 2 then 0 else At(s, i - 2), BP(i - 1);
    BPStep(i - 1);
    LowBound(s, i - 1);
    var l := Low(s, i - 1);
    assert Low(s, i + 1) == l + b * w + a * (B * w);
    MulAssoc(a, B, w);
    MulDist(a * B, b, w);
    MulDist(a * B + b, 1, w);
    assert Low(s, i + 1) == l + (a * B + b) * w;
    if i < 2 {
      assert w == 1 && l == 0;
      ThreeDigits(a * B + b, 0, 0, w);
    } else {
      BPStep(i - 2);
      LowBound(s, i - 2);
      assert l == Low(s, i - 2) + c * BP(i - 2);
      ThirdDigit(Low(s, i - 2), c, BP(i - 2), w);
      ThreeDigits(a * B + b, c, l, w);
    }
    assert (a * B + b) * B + c == a * (B * B) + b * B + c by { MulDist(a * B, b, B); MulAssoc(a, B, B); }
  }

  lemma ThirdDigit(l: int, c: int, v: int, w: int)
    requires w == B * v && 0 <= l < v
    ensures c * w <= (l + c * v) * B < (c + 1) * w
  {
    MulDist(l, c * v, B);
    MulAssoc(c, v, B);
    MulMonoStrict(l, v, B);
    MulNonNegative(l, B);
    MulDist(c, 1, w);
  }

  lemma ThreeDigits(h: int, c: int, l: int, w: int)
    requires w > 0 && c * w <= l * B < (c + 1) * w
    ensures (h * B + c) * (w * B) <= (l + h * w) * B * B < (h * B + c + 1) * (w * B)
  {
    MulMono(c * w, l * B, B);
    MulMonoStrict(l * B, (c + 1) * w, B);
    MulDist(l, h * w, B);
    MulDist(l * B, h * w * B, B);
    MulAssoc(c, w, B);
    MulAssoc(c + 1, w, B);
    MulDist(h * B, c, w * B);
    MulDist(h * B, c + 1, w * B);
    assert h * B * (w * B) == h * w * B * B by { Regroup(h, w); }
  }

  /** The same for the divisor's two leading digits. */
  lemma LeadingTwo(s: seq<int>, t: nat)
    requires DigitsOk(s)
    ensures TopTwo(Low(s, t + 1), BP(t), At(s, t) * B + (if t < 1 then 0 else At(s, t - 1)))
    ensures At(s, t) * BP(t) <= Low(s, t + 1) < (At(s, t) + 1) * BP(t)
  {
    var a, b, w := At(s, t), if t < 1 then 0 else At(s, t - 1), BP(t);
    BPPositive(t);
    LowBound(s, t);
    var l := Low(s, t);
    assert Low(s, t + 1) == l + a * w;
    MulDist(a, 1, w);
    if t < 1 {
      assert w == 1 && l == 0;
    } else {
      BPStep(t - 1);
      LowBound(s, t - 1);
      ThirdDigit(Low(s, t - 1), b, BP(t - 1), w);
    }
    assert b * w <= l * B < (b + 1) * w;
    MulDist(l, a * w, B);
    assert a * w * B == a * B * w by { MulAssoc(a, w, B); MulAssoc(a, B, w); }
    MulDist(a * B, b, w);
    MulDist(a * B, b + 1, w);
  }
}
