/** Montgomery reduction, the digit-by-digit form (bn_mp_montgomery_reduce.c). */
module Montgomery {
  import opened Arith
  import opened Congruences
  import opened Digits
  import opened MpInts
  import opened MpAdd
  import opened MpShift

  /** What mp_montgomery_setup provides: rho == -1/n0 modulo the radix. */
  ghost predicate IsRho(rho: int, n0: int) { IsDigit(rho) && (rho * n0 + 1) % B == 0 }

  /** The reduced residue: r * BP(k) == x modulo n. */
  ghost predicate Reduced(r: int, x: int, n: int, k: nat) {
    0 <= r < n && Cong(r * BP(k), x, n)
  }

  /** An odd modulus leaves no choice. */
  lemma ReducedUnique(r: int, r': int, x: int, n: int, k: nat)
    requires n > 0 && n % 2 == 1 && Reduced(r, x, n, k) && Reduced(r', x, n, k)
    ensures r == r'
  {
    CongSym(r' * BP(k), x, n);
    CongTrans(r * BP(k), x, r' * BP(k), n);
    RadixPower(k);
    CancelPow2(r, r', k * DIGIT_BIT, n);
    CongUnique(r, r', n);
  }

  /** mu = x * rho clears the lowest digit. */
  lemma DigitCleared(x: int, rho: int, n0: int, mu: int)
    requires IsRho(rho, n0) && mu == (x * rho) % B
    ensures (mu * n0 + x) % B == 0
  {
    var q := x * rho / B;
    DivModDef(x * rho, B);
    var k := (rho * n0 + 1) / B;
    DivModDef(rho * n0 + 1, B);
    MulDist(x * rho, q * B, n0);
    MulAssoc(x, rho, n0);
    assert x * (rho * n0 + 1) == x * (rho * n0) + x;
    MulAssoc(x, k, B);
    assert q * B * n0 == (q * n0) * B by { MulAssoc(q, B, n0); MulAssoc(q, n0, B); }
    MulDist(x * k, q * n0, B);
    DivModUnique(mu * n0 + x, B, x * k - q * n0, 0);
  }

  /** One column: at most B * B - 1, so it fits a double word and its carry a digit. */
  lemma ColumnBound(mu: int, d: int, u: int, x: int)
    requires IsDigit(mu) && IsDigit(d) && IsDigit(u) && IsDigit(x)
    ensures var r := mu * d + u + x; 0 <= r < B * B && 0 <= r / B < B && 0 <= r % B < B
  {
    MulMono(mu, B - 1, d);
    MulMono(d, B - 1, B - 1);
    MulNonNegative(mu, d);
    var r := mu * d + u + x;
    DivModDef(r, B);
    MulCancel(r / B, B, B);
    MulCancel(-1, r / B, B);
  }

  lemma ColumnValue(s: seq<int>, j: nat, L: nat, r: int, u: int, m: int)
    requires j < L <= |s| && r == m + u + s[j]
    ensures Low(s[j := r % B], L) + r / B * BP(j + 1) == Low(s, L) + u * BP(j) + m * BP(j)
  {
    LowUpdate(s, j, r % B, L);
    DivModDef(r, B);
    BPStep(j);
    MulAssoc(r / B, B, BP(j));
    MulDist(r / B * B, r % B, BP(j));
    MulDist(r, s[j], BP(j));
    MulDist(m, u, BP(j));
    MulDist(r % B, s[j], BP(j));
  }

  /** Multiply and add in place: x += mu * n * BP(ix), the total staying below BP(L). */
  method AddMultiple(x: MpInt, n: MpInt, mu: nat, ix: nat, ghost L: nat)
    requires x != n && n.Ok() && n.used > 0 && IsDigit(mu)
    requires DigitsOk(x.dp) && ix + n.used < L <= |x.dp|
    requires Low(x.dp, L) + mu * n.Mag() * BP(ix) < BP(L)
    modifies x`dp
    ensures |x.dp| == old(|x.dp|) && DigitsOk(x.dp)
    ensures forall k: nat :: k < ix || L <= k < |x.dp| ==> x.dp[k] == old(x.dp[k])
    ensures x.dp[ix] == (mu * n.dp[0] + old(x.dp[ix])) % B
    ensures Low(x.dp, L) == old(Low(x.dp, L)) + mu * n.Mag() * BP(ix)
  {
    UsedValue(n, n.used);
    hide *;
    ghost var X := x.dp;
    var u: int, iy := 0, 0;
    AccumStart(X, n.dp, mu, ix, L);
    while iy < n.used
      invariant iy <= n.used <= |n.dp| && |x.dp| == |X|
      invariant Accum(x.dp, X, n.dp, mu, ix, iy, u, L)
      modifies x`dp
    {
      var r := mu * n.dp[iy] + u + x.dp[ix + iy];
      AccumStep(x.dp, X, n.dp, mu, ix, iy, u, L, r);
      u := r / B;
      x.dp := x.dp[ix + iy := r % B];
      iy := iy + 1;
    }
    AccumEnd(x.dp, X, n.dp, mu, ix, iy, u, L);
    Propagate(x, u, ix + iy, L, Low(X, L) + mu * n.Mag() * BP(ix));
  }

  /** The digits of the inner loop: only the columns ix to ix + iy - 1 have changed. */
  ghost predicate AccumDigits(s: seq<int>, X: seq<int>, n: seq<int>, mu: int, ix: nat, iy: nat, u: int, L: nat) {
    && IsDigit(u) && |s| == |X| && DigitsOk(s) && DigitsOk(n) && IsDigit(mu) && ix + iy <= L <= |s|
    && (forall k: nat :: k < ix || ix + iy <= k < |s| ==> s[k] == X[k])
    && (iy == 0 ==> u == 0)
    && (iy > 0 && |n| > 0 ==> ix < |s| && s[ix] == (mu * n[0] + X[ix]) % B)
  }

  /** The value of the inner loop: what the low `iy` digits of n contribute has been added, less the carry. */
  ghost predicate AccumSum(s: seq<int>, X: seq<int>, n: seq<int>, mu: int, ix: nat, iy: nat, u: int, L: nat) {
    Low(s, L) + u * BP(ix + iy) == Low(X, L) + mu * Low(n, iy) * BP(ix)
  }

  /** The inner loop has added mu times the low `iy` digits of n at place ix, with carry u. */
  ghost predicate Accum(s: seq<int>, X: seq<int>, n: seq<int>, mu: int, ix: nat, iy: nat, u: int, L: nat) {
    AccumDigits(s, X, n, mu, ix, iy, u, L) && AccumSum(s, X, n, mu, ix, iy, u, L)
  }

  lemma AccumStart(X: seq<int>, n: seq<int>, mu: int, ix: nat, L: nat)
    requires DigitsOk(X) && DigitsOk(n) && IsDigit(mu) && ix <= L <= |X|
    ensures Accum(X, X, n, mu, ix, 0, 0, L)
  {
    MulAssoc(mu, 0, BP(ix));
  }

  lemma AccumStep(s: seq<int>, X: seq<int>, n: seq<int>, mu: int, ix: nat, iy: nat, u: int, L: nat, r: int)
    requires Accum(s, X, n, mu, ix, iy, u, L) && iy < |n| && ix + iy < L && r == mu * n[iy] + u + s[ix + iy]
    ensures 0 <= r < B * B
    ensures Accum(s[ix + iy := r % B], X, n, mu, ix, iy + 1, r / B, L)
  {
    hide Low, BP, AccumSum;
    AccumColumn(s, X, n, mu, ix, iy, u, L, r);
    hide AccumDigits;
    AccumAdds(s, X, n, mu, ix, iy, u, L, r);
  }

  lemma AccumColumn(s: seq<int>, X: seq<int>, n: seq<int>, mu: int, ix: nat, iy: nat, u: int, L: nat, r: int)
    requires AccumDigits(s, X, n, mu, ix, iy, u, L) && iy < |n| && ix + iy < L && r == mu * n[iy] + u + s[ix + iy]
    ensures 0 <= r < B * B && AccumDigits(s[ix + iy := r % B], X, n, mu, ix, iy + 1, r / B, L)
  {
    ColumnBound(mu, n[iy], u, s[ix + iy]);
    if iy == 0 { assert s[ix + iy := r % B][ix] == (mu * n[0] + X[ix]) % B; }
  }

  lemma AccumAdds(s: seq<int>, X: seq<int>, n: seq<int>, mu: int, ix: nat, iy: nat, u: int, L: nat, r: int)
    requires AccumSum(s, X, n, mu, ix, iy, u, L) && iy < |n| && ix + iy < L <= |s| && r == mu * n[iy] + u + s[ix + iy]
    ensures AccumSum(s[ix + iy := r % B], X, n, mu, ix, iy + 1, r / B, L)
  {
    hide Low, BP;
    ColumnValue(s, ix + iy, L, r, u, mu * n[iy]);
    MultipleStep(n, iy, ix, mu);
    assert At(n, iy) == n[iy];
  }

  lemma AccumEnd(s: seq<int>, X: seq<int>, n: seq<int>, mu: int, ix: nat, iy: nat, u: int, L: nat)
    requires Accum(s, X, n, mu, ix, iy, u, L)
    ensures IsDigit(u) && DigitsOk(s) && Low(s, L) + u * BP(ix + iy) == Low(X, L) + mu * Low(n, iy) * BP(ix)
    ensures forall k: nat :: k < ix || ix + iy <= k < |s| ==> k < |X| && s[k] == X[k]
    ensures iy > 0 && |n| > 0 ==> ix < |s| && ix < |X| && s[ix] == (mu * n[0] + X[ix]) % B
  {}

  lemma MultipleStep(n: seq<int>, iy: nat, ix: nat, mu: int)
    ensures mu * Low(n, iy + 1) * BP(ix) == mu * Low(n, iy) * BP(ix) + mu * At(n, iy) * BP(ix + iy)
  {
    var d := At(n, iy);
    BPAdd(ix, iy);
    assert mu * (Low(n, iy) + d * BP(iy)) == mu * Low(n, iy) + mu * (d * BP(iy));
    MulDist(mu * Low(n, iy), mu * (d * BP(iy)), BP(ix));
    MulAssoc(mu, d, BP(iy));
    MulAssoc(mu * d, BP(iy), BP(ix));
  }

  /** A carry moves up digit by digit and dies out below digit L.  (Squaring starts with up to twice a digit.) */
  method Propagate(x: MpInt, carry: nat, from: nat, ghost L: nat, ghost total: int)
    requires DigitsOk(x.dp) && carry < 2 * B && from <= L <= |x.dp|
    requires Low(x.dp, L) + carry * BP(from) == total < BP(L)
    modifies x`dp
    ensures |x.dp| == old(|x.dp|) && DigitsOk(x.dp) && Low(x.dp, L) == total
    ensures forall k: nat :: k < from || L <= k < |x.dp| ==> x.dp[k] == old(x.dp[k])
  {
    hide Low, BP;
    ghost var X := x.dp;
    var u: int, j := carry, from;
    while u != 0
      invariant from <= j <= L && 0 <= u < 2 * B && |x.dp| == |X| && DigitsOk(x.dp)
      invariant Low(x.dp, L) + u * BP(j) == total
      invariant forall k: nat :: k < from || L <= k < |x.dp| ==> x.dp[k] == X[k]
      decreases L - j
      modifies x`dp
    {
      CarryFits(x.dp, u, j, L, total);
      var t := x.dp[j] + u;
      SmallCarry(t);
      ColumnValue(x.dp, j, L, t, u, 0);
      x.dp := x.dp[j := t % B];
      u := t / B;
      j := j + 1;
    }
  }

  lemma SmallCarry(t: int)
    requires 0 <= t < 3 * B
    ensures 0 <= t / B < 2 * B && IsDigit(t % B)
  {
    DivModDef(t, B);
    MulCancel(t / B, 3, B);
    MulCancel(-1, t / B, B);
  }

  lemma CarryFits(s: seq<int>, u: int, j: nat, L: nat, total: int)
    requires DigitsOk(s) && u > 0 && j <= L && Low(s, L) + u * BP(j) == total < BP(L)
    ensures j < L
  {
    LowBound(s, L);
    BPPositive(j);
    MulMono(1, u, BP(j));
  }

  /** The input range: below n * BP(k), k being the number of digits of n. */
  ghost predicate InRange(X: int, n: int, k: nat) { 0 < n < BP(k) && 0 <= X < n * BP(k) }

  /** The low digits are clear and what has been added is a multiple of the modulus. */
  ghost predicate Cleared(s: seq<int>, n: int, k: nat, ix: nat, X: int, S: int) {
    && DigitsOk(s) && 2 * k + 1 <= |s| && ix <= k && 0 <= S < BP(ix)
    && (forall j: nat :: j < ix || 2 * k + 1 <= j < |s| ==> s[j] == 0)
    && Low(s, 2 * k + 1) == X + S * n
  }

  /** r is X plus a multiple of n, divided by BP(k). */
  ghost predicate Shifted(r: int, n: int, k: nat, X: int, S: int) {
    BP(k) * r == X + S * n < 2 * (n * BP(k))
  }

  /** With p the place of the digit: the multiplier grows by one digit and the value by mu * n * p. */
  lemma RoomAbove(n: int, p: int, S: int, mu: int)
    requires 0 <= S < p && IsDigit(mu)
    ensures 0 <= S + mu * p < B * p
    ensures S * n + mu * n * p == (S + mu * p) * n
  {
    MulMono(mu, B - 1, p);
    MulNonNegative(mu, p);
    MulDist(B, 1, p);
    MulDist(S, mu * p, n);
    MulAssoc(mu, p, n);
    MulAssoc(mu, n, p);
  }

  /** n * BP(k) leaves room for twice its value in 2k + 1 digits. */
  lemma RoomForTwo(n: int, k: nat)
    requires 0 < n < BP(k)
    ensures 2 * (n * BP(k)) < BP(2 * k + 1)
  {
    BPAdd(k, k);
    BPStep(2 * k);
    BPPositive(2 * k);
    hide *;
    MulMonoStrict(n, BP(k), BP(k));
    MulMono(2, B, BP(2 * k));
  }

  /** The total stays below 2 * n * BP(k), so it never leaves the 2k + 1 digits. */
  lemma RoomLeft(n: int, k: nat, ix: nat, X: int, S: int, mu: int)
    requires InRange(X, n, k) && ix < k && 0 <= S < BP(ix) && IsDigit(mu)
    ensures 0 <= S + mu * BP(ix) < BP(ix + 1)
    ensures X + S * n + mu * n * BP(ix) == X + (S + mu * BP(ix)) * n < 2 * (n * BP(k)) < BP(2 * k + 1)
  {
    BPStep(ix);
    BPMono(ix + 1, k);
    hide BP;
    RoomForTwo(n, k);
    RoomAbove(n, BP(ix), S, mu);
    MulMono(S + mu * BP(ix), BP(k), n);
  }

  lemma ClearRoom(s: seq<int>, n: int, k: nat, ix: nat, X: int, S: int, mu: int)
    requires Cleared(s, n, k, ix, X, S) && InRange(X, n, k) && ix < k && IsDigit(mu)
    ensures Low(s, 2 * k + 1) + mu * n * BP(ix) < BP(2 * k + 1)
    ensures DigitsOk(s) && 2 * k + 1 <= |s|
  {
    RoomLeft(n, k, ix, X, S, mu);
  }

  lemma ClearOne(s: seq<int>, s': seq<int>, n: int, k: nat, ix: nat, X: int, S: int, mu: int)
    requires Cleared(s, n, k, ix, X, S) && InRange(X, n, k) && ix < k && IsDigit(mu)
    requires DigitsOk(s') && |s'| == |s| && 2 * k + 1 <= |s| && s'[ix] == 0
    requires forall j: nat :: j < ix || 2 * k + 1 <= j < |s| ==> s'[j] == s[j]
    requires Low(s', 2 * k + 1) == Low(s, 2 * k + 1) + mu * n * BP(ix)
    ensures Cleared(s', n, k, ix + 1, X, S + mu * BP(ix))
  {
    RoomLeft(n, k, ix, X, S, mu);
  }

  /** x / BP(k) once the low digits are clear. */
  lemma AllCleared(s: seq<int>, n: int, k: nat, X: int, S: int)
    requires Cleared(s, n, k, k, X, S) && InRange(X, n, k)
    ensures Low(s, k) == 0 && DigitsOk(s) && 2 * k + 1 <= |s|
    ensures forall j: nat :: 2 * k + 1 <= j < |s| ==> s[j] == 0
    ensures forall r :: Val(s) == BP(k) * r ==> Shifted(r, n, k, X, S)
  {
    hide BP;
    LowZeros(s, 0, k);
    LowZeros(s, 2 * k + 1, |s|);
    MulMonoStrict(S, BP(k), n);
  }

  /** Congruent to X once scaled, and at most one subtraction away from the residue. */
  lemma AlmostReduced(r: int, n: int, k: nat, X: int, S: int)
    requires n > 0 && Shifted(r, n, k, X, S)
    ensures r < n && r >= 0 ==> Reduced(r, X, n, k)
    ensures r >= n ==> Reduced(r - n, X, n, k)
  {
    BPPositive(k);
    MulAssoc(2, n, BP(k));
    MulCancel(r, 2 * n, BP(k));
    CongIntro(r * BP(k), X, n, S);
    MulDist(r, n, BP(k));
    MulDist(S, BP(k), n);
    CongIntro((r - n) * BP(k), X, n, S - BP(k));
  }

  /** The last step of both forms: subtract the modulus unless x is below it already. */
  method FinalSubtract(x: MpInt, n: MpInt, ghost k: nat, ghost X: int, ghost S: int)
    requires x.Valid() && n.Ok() && x != n && n.Mag() > 0 && Shifted(x.Mag(), n.Mag(), k, X, S)
    modifies x
    ensures x.Valid() && |x.dp| >= old(|x.dp|) && Reduced(x.Mag(), X, n.Mag(), k)
    ensures x.sign == old(x.sign) || x.used == 0
    ensures old(x.used) == 0 ==> x.used == 0
  {
    hide BP, Low, Val, Cong, Reduced, Shifted, DigitsOk;
    MagBounds(x);
    MagBounds(n);
    AlmostReduced(x.Mag(), n.Mag(), k, X, S);
    OrderByUsed(n, x);
    var r := CmpMag(x, n);
    if r != Lt { SSub(x, n, x); }
  }

  /** mu = x[ix] * rho modulo the radix. */
  method Multiplier(d: nat, rho: nat, n0: nat) returns (mu: nat)
    requires IsRho(rho, n0)
    ensures IsDigit(mu) && (mu * n0 + d) % B == 0
  {
    DivModDef(d * rho, B);
    mu := (d * rho) % B;
    DigitCleared(d, rho, n0, mu);
  }

  /** The body of the outer loop. */
  method ClearDigit(x: MpInt, n: MpInt, rho: nat, k: nat, ix: nat, ghost X: int, ghost S: int) returns (ghost S': int)
    requires x != n && n.Ok() && k == n.used > ix && IsRho(rho, n.dp[0]) && InRange(X, n.Mag(), k)
    requires DigitsOk(x.dp) && ix < |x.dp| && Cleared(x.dp, n.Mag(), k, ix, X, S)
    modifies x`dp
    ensures |x.dp| == old(|x.dp|) && DigitsOk(x.dp) && Cleared(x.dp, n.Mag(), k, ix + 1, X, S')
  {
    var mu := Multiplier(x.dp[ix], rho, n.dp[0]);
    hide *;
    ghost var s := x.dp;
    ClearRoom(x.dp, n.Mag(), k, ix, X, S, mu);
    AddMultiple(x, n, mu, ix, 2 * k + 1);
    ClearOne(s, x.dp, n.Mag(), k, ix, X, S, mu);
    S' := S + mu * BP(ix);
  }

  lemma SizeFits(x: MpInt, n: int, k: nat)
    requires x.Ok() && InRange(x.Mag(), n, k)
    ensures x.used <= 2 * k
  {
    MagBounds(x);
    BPAdd(k, k);
    BPPositive(k);
    MulMonoStrict(n, BP(k), BP(k));
    if x.used > 2 * k { BPMono(2 * k, x.used - 1); }
  }

  lemma ClearedStart(s: seq<int>, n: int, k: nat, X: int)
    requires DigitsOk(s) && 2 * k + 1 <= |s| && Low(s, 2 * k + 1) == X
    requires forall j: nat :: 2 * k + 1 <= j < |s| ==> s[j] == 0
    ensures Cleared(s, n, k, 0, X, 0)
  {}

  /** mp_montgomery_reduce without the fast form. */
  method ReduceDigits(x: MpInt, n: MpInt, rho: nat)
    requires x.Valid() && n.Ok() && x != n && n.used > 0 && IsRho(rho, n.dp[0])
    requires InRange(x.Mag(), n.Mag(), n.used)
    modifies x
    ensures x.Valid() && |x.dp| >= old(|x.dp|) && Reduced(x.Mag(), old(x.Mag()), n.Mag(), n.used)
    ensures x.sign == old(x.sign) || x.used == 0
  {
    hide Low, BP, Val, Cleared, Cong, Reduced, InRange, IsRho, Shifted;
    ghost var X, N := x.Mag(), n.Mag();
    var k, digs := n.used, n.used * 2 + 1;
    SizeFits(x, N, k);
    Grow(x, digs);
    x.used := digs;
    UsedValue(x, digs);
    ghost var S := 0;
    ClearedStart(x.dp, N, k, X);
    var ix := 0;
    while ix < k
      invariant ix <= k && |x.dp| >= digs && DigitsOk(x.dp) && |x.dp| >= old(|x.dp|)
      invariant Cleared(x.dp, N, k, ix, X, S)
      modifies x`dp
    {
      S := ClearDigit(x, n, rho, k, ix, X, S);
      ix := ix + 1;
    }
    AllCleared(x.dp, N, k, X, S);
    Clamp(x);
    Rshd(x, k);
    InRangeMeans(X, N, k);
    FinalSubtract(x, n, k, X, S);
  }

  lemma InRangeMeans(X: int, n: int, k: nat)
    requires InRange(X, n, k)
    ensures 0 < n < BP(k) && 0 <= X < n * BP(k)
  {}
}
