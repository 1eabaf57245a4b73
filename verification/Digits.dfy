/** Digit strings of libtommath: least significant digit first, in base 2^DIGIT_BIT. */
module Digits {
  import opened Arith

  /** Any digit width from 7 bits on (tommath.h). */
  type DigitWidth = d: nat | 7 <= d witness 28
  const DIGIT_BIT: DigitWidth

  lemma WidthBound()
    ensures Pow(2, DIGIT_BIT) == 4 * Pow(2, DIGIT_BIT - 2) && Pow(2, DIGIT_BIT - 2) >= 32
  {
    PowMono(2, 5, DIGIT_BIT - 2);
    assert Pow(2, 5) == 32;
    PowAdd(2, 2, DIGIT_BIT - 2);
    assert Pow(2, 2) == 4;
  }

  /** The radix. */
  type Radix = b: int | 128 <= b witness 128
  const B: Radix := (WidthBound(); Pow(2, DIGIT_BIT))

  /** The weight of digit `n`. */
  function BP(n: nat): int { Pow(B, n) }

  lemma BPNone()
    ensures BP(0) == 1
  {}

  lemma BPOne()
    ensures BP(1) == B
  {
    assert Pow(B, 1) == B * Pow(B, 0);
  }

  lemma BPPositive(n: nat)
    ensures BP(n) > 0
  {
    PowPositive(B, n);
  }

  lemma BPStep(n: nat)
    ensures BP(n + 1) == B * BP(n) && BP(n) > 0
  {
    BPPositive(n);
  }

  lemma BPAdd(m: nat, n: nat)
    ensures BP(m + n) == BP(m) * BP(n)
  {
    PowAdd(B, m, n);
  }

  lemma BPMono(m: nat, n: nat)
    requires m <= n
    ensures BP(m) <= BP(n)
  {
    PowMono(B, m, n);
  }

  predicate IsDigit(d: int) { 0 <= d < B }

  predicate DigitsOk(s: seq<int>) {
    forall k :: 0 <= k < |s| ==> IsDigit(s[k])
  }

  /** Digit `k`, zero beyond the end. */
  function At(s: seq<int>, k: nat): int { if k < |s| then s[k] else 0 }

  /** The value of the low `n` digits. */
  function Low(s: seq<int>, n: nat): int {
    if n == 0 then 0 else Low(s, n - 1) + At(s, n - 1) * BP(n - 1)
  }

  function Val(s: seq<int>): int { Low(s, |s|) }

  lemma LowNone(s: seq<int>)
    ensures Low(s, 0) == 0
  {}

  lemma LowNext(s: seq<int>, i: nat)
    ensures Low(s, i + 1) == Low(s, i) + At(s, i) * BP(i)
  {}

  lemma {:induction false} LowBound(s: seq<int>, n: nat)
    requires DigitsOk(s)
    ensures 0 <= Low(s, n) < BP(n)
    decreases n
  {
    if n > 0 {
      var d := At(s, n - 1);
      LowBound(s, n - 1);
      BPStep(n - 1);
        assert IsDigit(d);
      MulMono(d, B - 1, BP(n - 1));
      MulNonNegative(d, BP(n - 1));
      MulDist(B, 1, BP(n - 1));
    }
  }

  /** The low part depends on the low digits only; equal digits from `m` on contribute equally. */
  lemma {:induction false} LowSame(s: seq<int>, t: seq<int>, m: nat, n: nat)
    requires m <= n
    requires forall k: nat :: m <= k < n ==> At(s, k) == At(t, k)
    ensures Low(s, n) - Low(s, m) == Low(t, n) - Low(t, m)
    decreases n
  {
    if m < n {
      assert At(s, n - 1) == At(t, n - 1);
      LowSame(s, t, m, n - 1);
    }
  }

  /** Zero digits add nothing. */
  lemma {:induction false} LowZeros(s: seq<int>, m: nat, n: nat)
    requires m <= n
    requires forall k: nat :: m <= k < n ==> At(s, k) == 0
    ensures Low(s, n) == Low(s, m)
    decreases n
  {
    if m < n {
      assert At(s, n - 1) == 0;
      LowZeros(s, m, n - 1);
    }
  }

  /** Changing one digit. */
  lemma LowUpdate(s: seq<int>, k: nat, d: int, n: nat)
    requires k < |s|
    ensures n <= k ==> Low(s[k := d], n) == Low(s, n)
    ensures k < n ==> Low(s[k := d], n) == Low(s, n) + (d - s[k]) * BP(k)
  {
    var t := s[k := d];
    if n <= k {
      LowSame(s, t, 0, n);
    } else {
      LowSame(s, t, 0, k);
      LowSame(s, t, k + 1, n);
      MulDist(d, s[k], BP(k));
    }
  }

  /** Digits moved up by `m` places weigh BP(m) times as much. */
  lemma {:induction false} LowShift(s: seq<int>, t: seq<int>, m: nat, n: nat)
    requires forall k: nat :: k < n ==> At(t, m + k) == At(s, k)
    ensures Low(t, m + n) == Low(t, m) + BP(m) * Low(s, n)
    decreases n
  {
    if n > 0 {
      LowShift(s, t, m, n - 1);
      assert At(t, m + (n - 1)) == At(s, n - 1);
      BPAdd(m, n - 1);
      ShiftStep(BP(m), BP(n - 1), At(s, n - 1), Low(s, n - 1));
    }
  }

  lemma ShiftStep(p: int, q: int, d: int, l: int)
    ensures p * l + d * (p * q) == p * (l + d * q)
  {
    calc {
      d * (p * q);
      (d * p) * q;
      (p * d) * q;
      { MulAssoc(p, d, q); }
      p * (d * q);
    }
  }

  /** The first digit, from the top, in which two strings differ decides their order. */
  lemma FirstDifference(s: seq<int>, t: seq<int>, k: nat, n: nat)
    requires DigitsOk(s) && DigitsOk(t) && k < n
    requires forall j: nat :: k < j < n ==> At(s, j) == At(t, j)
    requires At(s, k) < At(t, k)
    ensures Low(s, n) < Low(t, n)
  {
    LowSame(s, t, k + 1, n);
    LowBound(s, k);
    LowBound(t, k);
    BPPositive(k);
    MulMono(At(s, k) + 1, At(t, k), BP(k));
    MulDist(At(s, k), 1, BP(k));
  }

  /** A string whose top digit, number `n - 1`, is not zero. */
  lemma TopDigit(s: seq<int>, n: nat)
    requires DigitsOk(s) && n > 0 && At(s, n - 1) > 0
    ensures BP(n - 1) <= At(s, n - 1) * BP(n - 1) <= Low(s, n)
    ensures Low(s, n) < (At(s, n - 1) + 1) * BP(n - 1)
  {
    LowBound(s, n - 1);
    BPPositive(n - 1);
    MulMono(1, At(s, n - 1), BP(n - 1));
    MulDist(At(s, n - 1), 1, BP(n - 1));
  }
}
