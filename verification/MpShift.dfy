/** Scaling by a digit, by powers of the radix and by powers of two. */
module MpShift {
  import opened Arith
  import opened Digits
  import opened MpInts
  import opened MpAdd

  /** One more digit of a multiple: the column is m * x + u. */
  lemma ScaleColumn(s: seq<int>, was: seq<int>, i: nat, u: int, m: int, X: seq<int>, t: int)
    requires Written(s, was, i, u, m * Low(X, i)) && i < |s| && t == m * At(X, i) + u
    ensures Written(s[i := t % B], was, i + 1, t / B, m * Low(X, i + 1))
  {
    WriteColumn(s, was, i, u, m * Low(X, i), t);
    LowNext(X, i);
    MulAssoc(m, At(X, i), BP(i));
    assert m * (Low(X, i) + At(X, i) * BP(i)) == m * Low(X, i) + m * (At(X, i) * BP(i));
  }

  /** The carry out of a column stays below the factor. */
  lemma CarryBound(m: int, x: int, u: int)
    requires 0 <= u < m && 0 <= x < B
    ensures 0 <= (m * x + u) / B < m
  {
    var t := m * x + u;
    MulMono(x, B - 1, m);
    DivModDef(t, B);
    MulNonNegative(m, x);
    MulCancel(t / B, m, B);
    MulCancel(-1, t / B, B);
  }

  /** mp_mul_d: c = a * b for a digit b. */
  method MulD(a: MpInt, b: nat, c: MpInt)
    requires a.Loose() && IsDigit(b) && c.Loose()
    modifies c
    ensures c.Ok() && c.Mag() == b * old(a.Mag()) && |c.dp| >= old(|c.dp|)
    ensures c.sign == (if c.used == 0 then ZPos else old(a.sign))
  {
    hide Written, Low, BP;
    Grow(c, a.used + 1);
    UsedValue(a, a.used);
    ghost var X, C := a.dp, c.dp;
    var n, olduse := a.used, c.used;
    c.sign := a.sign;
    var u: int, ix := 0, 0;
    WrittenNone(c.dp);
    LowNone(X);
    while ix < n
      invariant ix <= n && 0 <= u && (u < b || u == 0)
      invariant |c.dp| == |C| && Written(c.dp, C, ix, u, b * Low(X, ix))
      invariant Tail(a.dp, X, ix)
      modifies c`dp
    {
      var r := b * a.dp[ix] + u;
      if b > 0 { CarryBound(b, X[ix], u); } else { CarryBit(r); }
      ScaleColumn(c.dp, C, ix, u, b, X, r);
      c.dp := c.dp[ix := r % B];
      u := r / B;
      ix := ix + 1;
    }
    CarryBit(u);
    WriteColumn(c.dp, C, ix, u, b * Low(X, ix), u);
    c.dp := c.dp[ix := u];
    WrittenMeans(c.dp, C, ix + 1, 0, b * Low(X, ix));
    ClearAbove(c, n + 1, olduse);
    c.used := n + 1;
    Clamp(c);
  }

  method ClearBelow(a: MpInt, b: nat)
    requires b <= |a.dp| && DigitsOk(a.dp)
    modifies a`dp
    ensures |a.dp| == old(|a.dp|) && DigitsOk(a.dp)
    ensures forall k: nat :: k < b ==> a.dp[k] == 0
    ensures forall k: nat :: b <= k < |a.dp| ==> a.dp[k] == old(a.dp[k])
  {
    var x := 0;
    while x < b
      invariant x <= b <= |a.dp| == old(|a.dp|) && DigitsOk(a.dp)
      invariant forall k: nat :: k < x ==> a.dp[k] == 0
      invariant forall k: nat :: b <= k < |a.dp| ==> a.dp[k] == old(a.dp[k])
    {
      a.dp := a.dp[x := 0];
      x := x + 1;
    }
  }

  /** The low n digits move up by b places. */
  method MoveUp(a: MpInt, b: nat, n: nat)
    requires n + b <= |a.dp| && DigitsOk(a.dp)
    modifies a`dp
    ensures |a.dp| == old(|a.dp|) && DigitsOk(a.dp)
    ensures forall k: nat :: k < n ==> a.dp[k + b] == old(a.dp[k])
    ensures forall k: nat :: n + b <= k < |a.dp| ==> a.dp[k] == old(a.dp[k])
  {
    ghost var X := a.dp;
    var x := n + b - 1;
    while x >= b
      invariant b - 1 <= x < n + b && |a.dp| == |X| && DigitsOk(a.dp)
      invariant forall k: nat :: k < n && x < k + b ==> a.dp[k + b] == X[k]
      invariant forall k: nat :: k <= x && k < n ==> a.dp[k] == X[k]
      invariant forall k: nat :: n + b <= k < |X| ==> a.dp[k] == X[k]
    {
      a.dp := a.dp[x := a.dp[x - b]];
      x := x - 1;
    }
  }

  /** mp_lshd: a * BP(b).  Zero is shifted too, which leaves `used` too big. */
  method Lshd(a: MpInt, b: int)
    requires a.Loose()
    modifies a
    ensures a.Loose() && a.Mag() == (if b <= 0 then old(a.Mag()) else BP(b) * old(a.Mag()))
    ensures a.used == (if b <= 0 then old(a.used) else old(a.used) + b) && a.sign == old(a.sign)
    ensures |a.dp| >= old(|a.dp|) && (old(a.Ok()) && old(a.used) > 0 ==> a.Ok())
  {
    if b <= 0 { return; }
    hide Low, BP;
    Grow(a, a.used + b);
    ghost var X := a.dp;
    var n := a.used;
    UsedValue(a, n);
    a.used := a.used + b;
    MoveUp(a, b, n);
    ClearBelow(a, b);
    ShiftedUp(X, a.dp, b, n);
    UsedValue(a, n + b);
  }

  lemma ShiftedUp(s: seq<int>, t: seq<int>, b: nat, n: nat)
    requires n <= |s| && n + b <= |t|
    requires forall k: nat :: k < n ==> t[k + b] == s[k]
    requires forall k: nat :: k < b ==> t[k] == 0
    ensures Low(t, n + b) == BP(b) * Low(s, n)
  {
    forall k: nat | k < n ensures At(t, b + k) == At(s, k) {
      assert t[k + b] == s[k];
    }
    LowShift(s, t, b, n);
    LowZeros(t, 0, b);
  }

  /** mp_rshd: the low `b` digits are dropped. */
  method Rshd(a: MpInt, b: int)
    requires a.Loose()
    modifies a
    ensures a.Loose() && (old(a.Ok()) ==> a.Ok()) && |a.dp| == old(|a.dp|)
    ensures b <= 0 ==> a.Mag() == old(a.Mag())
    ensures b > 0 ==> old(a.Mag()) == BP(b) * a.Mag() + old(Low(a.dp, b))
    ensures a.sign == old(a.sign) || a.used == 0
    ensures old(a.Valid()) ==> a.Valid()
    ensures a.used == (if b <= 0 then old(a.used) else if old(a.used) <= b then 0 else old(a.used) - b)
  {
    hide Low, BP;
    if b <= 0 { return; }
    if a.used <= b {
      UsedValue(a, b);
      Zero(a);
      return;
    }
    ghost var X := a.dp;
    var n := a.used;
    UsedValue(a, n);
    var x := 0;
    while x < n - b
      invariant 0 <= x <= n - b && |a.dp| == |X| && DigitsOk(a.dp)
      invariant forall k: nat :: k < x ==> a.dp[k] == X[k + b]
      invariant forall k: nat :: x <= k < |X| ==> a.dp[k] == X[k]
      modifies a`dp
    {
      a.dp := a.dp[x := a.dp[x + b]];
      x := x + 1;
    }
    ClearAbove(a, x, n);
    a.used := n - b;
    LowShiftDown(X, a.dp, b, n);
  }

  lemma LowShiftDown(s: seq<int>, t: seq<int>, b: nat, n: nat)
    requires b <= n <= |s| && n - b <= |t|
    requires forall k: nat :: k < n - b ==> t[k] == s[k + b]
    ensures Low(s, n) == BP(b) * Low(t, n - b) + Low(s, b)
  {
    forall k: nat | k < n - b ensures At(s, b + k) == At(t, k) {
      assert t[k] == s[k + b];
    }
    LowShift(t, s, b, n - b);
  }

  /** Splitting a digit at bit `p` == 2^d, with B == p * q: what is shifted out on the left is x / q. */
  lemma ShiftedDigit(x: int, p: int, q: int, u: int)
    requires B == p * q && p > 0 && q > 0 && 0 <= x < B && 0 <= u < p
    ensures (x * p + u) / B == x / q && 0 <= x / q < p
    ensures (x * p + u) % B == (x * p) % B + u
  {
    DivModDef(x, q);
    var h, l := x / q, x % q;
    MulDist(h * q, l, p);
    MulAssoc(h, q, p);
    assert x * p == h * B + l * p;
    MulMono(l, q - 1, p);
    MulNonNegative(l, p);
    MulDist(q, 1, p);
    DivModUnique(x * p + u, B, h, l * p + u);
    DivModUnique(x * p, B, h, l * p);
    MulCancel(h, p, q);
    MulCancel(-1, h, q);
  }

  lemma ShiftColumn(s: seq<int>, X: seq<int>, x: nat, r: int, p: int, q: int)
    requires B == p * q && p > 0 && q > 0 && 0 <= r < p && DigitsOk(X) && x < |X| == |s|
    requires Written(s, X, x, r, p * Low(X, x))
    ensures Written(s[x := (X[x] * p) % B + r], X, x + 1, X[x] / q, p * Low(X, x + 1))
    ensures 0 <= X[x] / q < p
  {
    hide Written, Low, BP;
    ShiftedDigit(X[x], p, q, r);
    ScaleColumn(s, X, x, r, p, X, X[x] * p + r);
  }

  /** The bits of a shift amount. */
  lemma BitSplit(d: nat)
    requires d <= DIGIT_BIT
    ensures B == Pow(2, d) * Pow(2, DIGIT_BIT - d) && Pow(2, d) > 0 && Pow(2, DIGIT_BIT - d) > 0
  {
    PowAdd(2, d, DIGIT_BIT - d);
    PowPositive(2, d);
    PowPositive(2, DIGIT_BIT - d);
  }

  lemma {:induction false} RadixPower(n: nat)
    ensures BP(n) == Pow(2, n * DIGIT_BIT)
    decreases n
  {
    if n > 0 {
      RadixPower(n - 1);
      PowAdd(2, DIGIT_BIT, (n - 1) * DIGIT_BIT);
      MulDist(n - 1, 1, DIGIT_BIT);
      assert n * DIGIT_BIT == DIGIT_BIT + (n - 1) * DIGIT_BIT;
    }
  }

  /** The loop of mp_mul_2d and mp_mul_2: all digits up by d bits, 0 < d < DIGIT_BIT. */
  method ShiftBitsUp(c: MpInt, d: nat)
    requires c.Loose() && 0 < d < DIGIT_BIT && c.used < |c.dp|
    modifies c`dp, c`used
    ensures c.Loose() && c.Mag() == Pow(2, d) * old(c.Mag()) && |c.dp| == old(|c.dp|)
    ensures old(c.used) <= c.used
  {
    hide Written, Low, BP, Pow;
    BitSplit(d);
    var p, q := Pow(2, d), Pow(2, DIGIT_BIT - d);
    ghost var X := c.dp;
    var n := c.used;
    UsedValue(c, n);
    var r: int, x := 0, 0;
    WrittenNone(c.dp);
    LowNone(X);
    while x < n
      invariant x <= n && 0 <= r < p
      invariant |c.dp| == |X| && Written(c.dp, X, x, r, p * Low(X, x))
      invariant Tail(c.dp, X, x)
      modifies c`dp
    {
      var rr := c.dp[x] / q;
      ShiftColumn(c.dp, X, x, r, p, q);
      c.dp := c.dp[x := (c.dp[x] * p) % B + r];
      r := rr;
      x := x + 1;
    }
    BitsCarryOut(c.dp, X, n, r, p);
    if r != 0 {
      c.dp := c.dp[c.used := r];
      c.used := c.used + 1;
    }
    UsedValue(c, c.used);
  }

  lemma BitsCarryOut(s: seq<int>, X: seq<int>, n: nat, r: int, p: int)
    requires Written(s, X, n, r, p * Low(X, n)) && n < |s| && 0 <= r < p <= B && DigitsOk(X)
    requires forall k: nat :: n <= k < |X| ==> X[k] == 0
    ensures DigitsOk(s) && forall k: nat :: n <= k < |s| ==> s[k] == 0
    ensures r == 0 ==> Low(s, n) == p * Low(X, n)
    ensures Low(s[n := r], n + 1) == p * Low(X, n)
  {
    LowUpdate(s, n, r, n);
  }

  /** A shift by b bits moves whole digits, then bits. */
  function Places(b: nat): nat { b / DIGIT_BIT }

  function Bits(b: nat): nat { b % DIGIT_BIT }

  /** mp_mul_2d: c = a * 2^b. */
  method Mul2d(a: MpInt, b: nat, c: MpInt)
    requires a.Valid() && c.Valid()
    modifies c
    ensures c.Valid() && c.Int() == Pow(2, b) * old(a.Int()) && |c.dp| >= old(|c.dp|)
  {
    PlacesAndBits(b);
    hide Low, BP, Pow, Val, DigitsOk, At, Places, Bits;
    if a != c { Copy(a, c); }
    Grow(c, c.used + Places(b) + 1);
    ghost var m := c.Mag();
    if b >= DIGIT_BIT { Lshd(c, Places(b)); }
    ghost var m1 := c.Mag();
    if Bits(b) != 0 {
      Grow(c, c.used + 1);
      ShiftBitsUp(c, Bits(b));
    }
    ShiftedBoth(b, m, m1, c.Mag());
    Clamp(c);
    MagBounds(c);
    ScaledSign(c.sign, old(a.sign), m, Pow(2, b));
  }

  lemma PlacesAndBits(b: nat)
    ensures Bits(b) < DIGIT_BIT && (b >= DIGIT_BIT <==> Places(b) > 0) && Pow(2, b) > 0
  {
    DivModDef(b, DIGIT_BIT);
    PowPositive(2, b);
    if b < DIGIT_BIT { DivModUnique(b, DIGIT_BIT, 0, b); }
    if b >= DIGIT_BIT && Places(b) <= 0 { MulMono(Places(b), 0, DIGIT_BIT); }
  }

  /** Moving digits and then bits multiplies by 2^b. */
  lemma ShiftedBoth(b: nat, m: int, m1: int, m2: int)
    requires m1 == if Places(b) > 0 then BP(Places(b)) * m else m
    requires m2 == if Bits(b) != 0 then Pow(2, Bits(b)) * m1 else m1
    ensures m2 == Pow(2, b) * m
  {
    var k, d := Places(b), Bits(b);
    ShiftAmount(b, k, d, m);
    hide Places, Bits, BP, Pow;
  }

  lemma ScaledSign(s: Sign, t: Sign, m: int, p: int)
    requires m >= 0 && p > 0 && (s == t || p * m == 0)
    ensures Signed(s, p * m) == p * Signed(t, m)
  {
    if m > 0 { MulPositive(p, m); }
  }

  lemma ShiftAmount(b: nat, k: nat, d: nat, m: int)
    requires k == b / DIGIT_BIT && d == b % DIGIT_BIT
    ensures Pow(2, d) * (BP(k) * m) == Pow(2, b) * m
    ensures k == 0 ==> Pow(2, d) * m == Pow(2, b) * m
    ensures d == 0 ==> BP(k) * m == Pow(2, b) * m
    ensures k == 0 && d == 0 ==> Pow(2, b) * m == m
    ensures b < DIGIT_BIT <==> k == 0
  {
    DivModDef(b, DIGIT_BIT);
    RadixPower(k);
    PowAdd(2, d, k * DIGIT_BIT);
    MulAssoc(Pow(2, d), BP(k), m);
    if b < DIGIT_BIT { DivModUnique(b, DIGIT_BIT, 0, b); }
  }

  /** Number of bits in use: the top digit alone. */
  method DigitBits(top: nat) returns (k: nat)
    requires 0 < top < B
    ensures 0 < k <= DIGIT_BIT && Pow(2, k - 1) <= top < Pow(2, k)
  {
    var q := top;
    k := 0;
    while q > 0
      invariant Bracket(q, k, top)
      decreases q
    {
      Halve(q, k, top);
      k := k + 1;
      q := q / 2;
    }
    if k - 1 >= DIGIT_BIT { PowMono(2, DIGIT_BIT, k - 1); }
  }

  /** q is `top` without its low `k` bits. */
  ghost predicate Bracket(q: nat, k: nat, top: int) {
    q * Pow(2, k) <= top < (q + 1) * Pow(2, k) && (q == 0 ==> k > 0 && Pow(2, k - 1) <= top)
  }

  lemma Halve(q: nat, k: nat, top: nat)
    requires q > 0 && Bracket(q, k, top)
    ensures Bracket(q / 2, k + 1, top)
  {
    var h, p := q / 2, Pow(2, k);
    MulMono(h * 2, q, p);
    MulMono(q + 1, (h + 1) * 2, p);
    MulAssoc(h, 2, p);
    MulAssoc(h + 1, 2, p);
    MulMono(1, q, p);
  }

  /** mp_count_bits */
  method CountBits(a: MpInt) returns (r: nat)
    requires a.Ok()
    ensures a.used == 0 ==> r == 0
    ensures a.used > 0 ==> (a.used - 1) * DIGIT_BIT < r <= a.used * DIGIT_BIT
    ensures a.used > 0 ==> var k := r - (a.used - 1) * DIGIT_BIT; Pow(2, k - 1) <= a.dp[a.used - 1] < Pow(2, k)
    ensures r > 0 ==> Pow(2, r - 1) <= a.Mag() < Pow(2, r)
  {
    if a.used == 0 { return 0; }
    var k := DigitBits(a.dp[a.used - 1]);
    r := (a.used - 1) * DIGIT_BIT + k;
    BitsOfNumber(a.dp, a.used, k);
    UsedValue(a, a.used);
  }

  lemma BitsOfNumber(s: seq<int>, n: nat, k: nat)
    requires DigitsOk(s) && 0 < n <= |s| && 0 < k <= DIGIT_BIT && Pow(2, k - 1) <= s[n - 1] < Pow(2, k)
    ensures (n - 1) * DIGIT_BIT < (n - 1) * DIGIT_BIT + k <= n * DIGIT_BIT
    ensures Pow(2, (n - 1) * DIGIT_BIT + k - 1) <= Low(s, n) < Pow(2, (n - 1) * DIGIT_BIT + k)
  {
    PowPositive(2, k - 1);
    TopDigit(s, n);
    var w := (n - 1) * DIGIT_BIT;
    RadixPower(n - 1);
    BPPositive(n - 1);
    PowAdd(2, k - 1, w);
    PowAdd(2, k, w);
    MulMono(Pow(2, k - 1), s[n - 1], BP(n - 1));
    MulMono(s[n - 1] + 1, Pow(2, k), BP(n - 1));
    MulDist(n, 1, DIGIT_BIT);
  }

  /** The digits from `i` up to `n`. */
  ghost function High(s: seq<int>, i: nat, n: nat): int { Low(s, n) - Low(s, i) }

  /** A right shift of X into a buffer that was C has reached digit `i`: the high part of X is p times that of s, plus
      what is carried down. */
  ghost predicate Shifting(s: seq<int>, C: seq<int>, X: seq<int>, i: nat, n: nat, p: int, r: int) {
    && |s| == |C| && DigitsOk(s) && i <= n <= |s| && n <= |X|
    && (forall k: nat :: k < i ==> s[k] == C[k])
    && (forall k: nat :: n <= k < |C| ==> s[k] == C[k])
    && High(X, i, n) == p * High(s, i, n) + r * BP(i)
  }

  lemma ShiftDownDigit(s: seq<int>, C: seq<int>, X: seq<int>, i: nat, n: nat, p: int, q: int, r: int)
    requires B == p * q && p > 0 && q > 0 && 0 <= r < p && DigitsOk(X) && 0 < i
    requires Shifting(s, C, X, i, n, p, r)
    ensures 0 <= X[i - 1] % p < p
    ensures Shifting(s[i - 1 := X[i - 1] / p + r * q], C, X, i - 1, n, p, X[i - 1] % p)
  {
    var x, d := X[i - 1], X[i - 1] / p + r * q;
    hide Low, BP;
    ShiftDownRange(x, p, q, r);
    LowUpdate(s, i - 1, d, n);
    LowUpdate(s, i - 1, d, i);
    LowUpdate(s, i - 1, d, i - 1);
    LowNext(X, i - 1);
    LowNext(s, i - 1);
    BPStep(i - 1);
    ShiftDownSum(x, r, p, q, BP(i - 1), High(s, i, n));
  }

  lemma ShiftDownRange(x: int, p: int, q: int, r: int)
    requires B == p * q && p > 0 && q > 0 && 0 <= r < p && 0 <= x < B
    ensures 0 <= x / p + r * q < B && 0 <= x % p < p
  {
    DivModDef(x, p);
    MulCancel(x / p, q, p);
    MulCancel(-1, x / p, p);
    MulMono(r, p - 1, q);
    MulNonNegative(r, q);
    MulDist(p, 1, q);
  }

  lemma ShiftDownSum(x: int, r: int, p: int, q: int, w: int, h: int)
    requires p > 0 && B == p * q
    ensures p * h + r * (B * w) + x * w == p * (h + (x / p + r * q) * w) + x % p * w
  {
    var d, e := x / p, x % p;
    DivModDef(x, p);
    MulDist(d * p, e, w);
    MulDist(d, r * q, w);
    assert p * (h + (d + r * q) * w) == p * h + p * ((d + r * q) * w);
    assert p * (d * w + (r * q) * w) == p * (d * w) + p * ((r * q) * w);
    MulAssoc(p, d, w);
    MulAssoc(p, r * q, w);
    assert p * (r * q) == r * B by { MulAssoc(r, q, p); }
    MulAssoc(r, B, w);
  }

  /** The loop of mp_div_2d and mp_div_2: all digits down by d bits, 0 < d < DIGIT_BIT. */
  method ShiftBitsDown(c: MpInt, d: nat)
    requires c.Loose() && 0 < d < DIGIT_BIT
    modifies c`dp
    ensures c.Loose() && c.Mag() == old(c.Mag()) / Pow(2, d) && |c.dp| == old(|c.dp|)
  {
    BitSplit(d);
    hide Low, BP, Pow, Shifting, High;
    var p, q := Pow(2, d), Pow(2, DIGIT_BIT - d);
    ghost var X := c.dp;
    var n := c.used;
    UsedValue(c, n);
    var r: int, x := 0, n;
    ShiftingStart(X, X, n, p);
    while x > 0
      invariant 0 <= x <= n && 0 <= r < p && |c.dp| == |X|
      invariant Shifting(c.dp, X, X, x, n, p, r) && (forall k: nat :: k < x ==> c.dp[k] == X[k])
      modifies c`dp
    {
      x := x - 1;
      var rr := c.dp[x] % p;
      ShiftDownDigit(c.dp, X, X, x + 1, n, p, q, r);
      c.dp := c.dp[x := c.dp[x] / p + r * q];
      r := rr;
    }
    ShiftingEnd(c.dp, X, X, n, p, r);
    UsedValue(c, n);
  }

  lemma ShiftingStart(C: seq<int>, X: seq<int>, n: nat, p: int)
    requires DigitsOk(C) && n <= |C| && n <= |X|
    ensures Shifting(C, C, X, n, n, p, 0)
  {}

  lemma ShiftingEnd(s: seq<int>, C: seq<int>, X: seq<int>, n: nat, p: int, r: int)
    requires Shifting(s, C, X, 0, n, p, r) && 0 <= r < p
    ensures DigitsOk(s) && |s| == |C| && Low(s, n) == Low(X, n) / p
    ensures forall k: nat :: n <= k < |C| ==> s[k] == C[k]
  {
    HighAll(s, n);
    HighAll(X, n);
    BPNone();
    hide Low, BP, High;
    DivModUnique(Low(X, n), p, Low(s, n), r);
  }

  lemma HighAll(s: seq<int>, n: nat)
    ensures High(s, 0, n) == Low(s, n)
  {}

  /** mp_mod_2d: the low b bits of |a|, with the sign of a. */
  method Mod2d(a: MpInt, b: int, c: MpInt)
    requires a.Valid() && c.Loose()
    modifies c
    ensures c.Valid() && |c.dp| >= old(|c.dp|)
    ensures c.Int() == if b <= 0 then 0 else Signed(old(a.sign), old(a.Mag()) % Pow(2, b))
  {
    hide Low, BP, Pow, Val;
    if b <= 0 {
      Zero(c);
      return;
    }
    ghost var m, n := a.Mag(), a.used;
    MagBounds(a);
    if b >= a.used * DIGIT_BIT {
      ShortResidue(m, n, b);
      Copy(a, c);
      return;
    }
    Copy(a, c);
    KeepLowBits(c, b);
    Clamp(c);
    MagBounds(c);
  }

  /** Clears the digits above place b, and the bits above it in the digit where it falls. */
  method KeepLowBits(c: MpInt, b: nat)
    requires c.Loose() && b < c.used * DIGIT_BIT
    modifies c`dp
    ensures c.Loose() && c.Mag() == old(c.Mag()) % Pow(2, b) && |c.dp| == old(|c.dp|)
  {
    hide Low, BP, Pow;
    ghost var X := c.dp;
    UsedValue(c, c.used);
    var k, d := b / DIGIT_BIT, b % DIGIT_BIT;
    PlaceBelow(b, k, c.used);
    ClearAbove(c, if d == 0 then k else k + 1, c.used);
    PlacesAndBits(d);
    LowBits(X, c.dp, b, c.used, k, d);
    c.dp := c.dp[k := c.dp[k] % Pow(2, d)];
  }

  lemma ShortResidue(m: int, n: nat, b: nat)
    requires 0 <= m < BP(n) && b >= n * DIGIT_BIT
    ensures Pow(2, b) > 0 && m % Pow(2, b) == m
  {
    RadixPower(n);
    PowMono(2, n * DIGIT_BIT, b);
    DivModUnique(m, Pow(2, b), 0, m);
  }

  lemma PlaceBelow(b: nat, k: int, n: nat)
    requires k == b / DIGIT_BIT && b < n * DIGIT_BIT
    ensures 0 <= k < n
  {
    DivModDef(b, DIGIT_BIT);
    MulCancel(k, n, DIGIT_BIT);
    MulCancel(-1, k, DIGIT_BIT);
  }

  /** Clearing the digits above place k and masking the one there leaves the low b bits. */
  lemma LowBits(X: seq<int>, C: seq<int>, b: nat, n: nat, k: nat, d: nat)
    requires DigitsOk(X) && DigitsOk(C) && |C| == |X| && k < n <= |X| && k == b / DIGIT_BIT && d == b % DIGIT_BIT
    requires forall j: nat :: j < k || (j == k && d > 0) ==> C[j] == X[j]
    requires forall j: nat :: (j == k && d == 0) || k < j < |C| ==> C[j] == 0
    ensures Pow(2, d) > 0 && Pow(2, b) > 0
    ensures var t := C[k := C[k] % Pow(2, d)]; DigitsOk(t) && Low(t, |t|) == Low(X, n) % Pow(2, b)
  {
    hide Low, BP, Pow;
    PlacesAndBits(b);
    PlacesAndBits(d);
    DigitMasked(C[k], d);
    DigitMasked(X[k], d);
    var t := C[k := C[k] % Pow(2, d)];
    assert At(t, k) == X[k] % Pow(2, d);
    LowZeros(t, k + 1, |t|);
    LowNext(t, k);
    LowNone(X);
    LowNone(t);
    LowSame(X, t, 0, k);
    assert Low(t, |t|) == Low(X, k) + X[k] % Pow(2, d) * BP(k);
    LowShiftDown(X, X[k + 1..], k + 1, n);
    LowNext(X, k);
    LowBound(X, k);
    LowBitsValue(b, k, d, Low(X, n), Low(X[k + 1..], n - (k + 1)), X[k], Low(X, k));
  }

  lemma DigitMasked(x: int, d: nat)
    requires IsDigit(x) && d < DIGIT_BIT
    ensures Pow(2, d) > 0 && IsDigit(x % Pow(2, d)) && (d == 0 ==> x % Pow(2, d) == 0)
  {
    PowPositive(2, d);
    PowMono(2, d, DIGIT_BIT);
    assert Pow(2, 0) == 1;
    hide Pow;
    DivModDef(x, Pow(2, d));
  }

  lemma LowBitsValue(b: nat, k: nat, d: nat, m: int, h: int, x: int, l: int)
    requires k == b / DIGIT_BIT && d == b % DIGIT_BIT && 0 <= l < BP(k) && IsDigit(x)
    requires m == BP(k + 1) * h + (l + x * BP(k))
    ensures Pow(2, d) > 0 && Pow(2, b) > 0 && m % Pow(2, b) == l + x % Pow(2, d) * BP(k)
  {
    DivModDef(b, DIGIT_BIT);
    RadixPower(k);
    PowAdd(2, d, k * DIGIT_BIT);
    PowPositive(2, b);
    BitSplit(d);
    BPStep(k);
    hide Pow, BP;
    SplitBits(Pow(2, d), Pow(2, DIGIT_BIT - d), BP(k), m, h, x, l);
  }

  lemma SplitBits(p: int, q: int, w: int, m: int, h: int, x: int, l: int)
    requires p > 0 && w > 0 && p * w > 0 && 0 <= l < w && m == (p * q) * w * h + (l + x * w)
    ensures m % (p * w) == l + x % p * w
  {
    var c, e := x / p, x % p;
    DivModDef(x, p);
    MulDist(c * p, e, w);
    MulAssoc(c, p, w);
    MulMono(e, p - 1, w);
    MulNonNegative(e, w);
    MulDist(p, 1, w);
    assert (p * q) * w * h == (q * h) * (p * w) by {
      MulAssoc(q, p, w);
      MulAssoc(p * w, q, h);
    }
    MulDist(q * h, c, p * w);
    DivModUnique(m, p * w, q * h + c, l + e * w);
  }

  /** mp_div_2d: |c| is |a| / 2^b, rounded towards zero; d, if asked for, gets the rest. */
  method Div2d(a: MpInt, b: int, c: MpInt, d: MpInt?)
    requires a.Valid() && c.Loose() && (d != null ==> |d.dp| > 0)
    modifies c, d
    ensures d != c ==> c.Valid() && c.Mag() == (if b <= 0 then old(a.Mag()) else old(a.Mag()) / Pow(2, b))
    ensures d != c ==> (c.used == 0 || c.sign == old(a.sign)) && |c.dp| >= old(|c.dp|)
    ensures d != null ==> d.Valid() && d.Int() == if b <= 0 then 0 else Signed(old(a.sign), old(a.Mag()) % Pow(2, b))
  {
    hide Low, BP, Pow, Val;
    if b <= 0 {
      Copy(a, c);
      if d != null { Zero(d); }
      return;
    }
    var t := new MpInt();
    ValidIsLoose(t);
    if d != null { Mod2d(a, b, t); }
    ShiftDown(a, b, c);
    if d != null { Exch(t, d); }
  }

  method ShiftDown(a: MpInt, b: nat, c: MpInt)
    requires a.Valid() && c.Loose()
    modifies c
    ensures c.Valid() && c.Mag() == old(a.Mag()) / Pow(2, b)
    ensures c.used == 0 || c.sign == old(a.sign)
    ensures |c.dp| >= old(|c.dp|)
  {
    hide Low, BP, Pow, Val;
    ghost var m := a.Mag();
    Copy(a, c);
    assert c.Mag() == m;
    ghost var k, d := b / DIGIT_BIT, b % DIGIT_BIT;
    ghost var l := Low(c.dp, k);
    LowBound(c.dp, k);
    LowNone(c.dp);
    ShiftAmount(b, k, d, m);
    if b >= DIGIT_BIT { Rshd(c, b / DIGIT_BIT); }
    ghost var h := c.Mag();
    if b % DIGIT_BIT != 0 { ShiftBitsDown(c, b % DIGIT_BIT); }
    assert m == h * BP(k) + l by { BPNone(); }
    ShiftAmountDown(b, k, d, m, h, l);
    Clamp(c);
  }

  lemma ShiftAmountDown(b: nat, k: nat, d: nat, m: int, h: int, l: int)
    requires k == b / DIGIT_BIT && d == b % DIGIT_BIT && m == h * BP(k) + l && 0 <= l < BP(k)
    ensures m / Pow(2, b) == h / Pow(2, d) && (d == 0 ==> m / Pow(2, b) == h)
  {
    DivModDef(b, DIGIT_BIT);
    RadixPower(k);
    PowAdd(2, d, k * DIGIT_BIT);
    PowPositive(2, b);
    PowPositive(2, d);
    var p, w := Pow(2, d), BP(k);
    var c, e := h / p, h % p;
    DivModDef(h, p);
    MulDist(c * p, e, w);
    MulAssoc(c, p, w);
    MulMono(e, p - 1, w);
    MulNonNegative(e, w);
    MulDist(p, 1, w);
    DivModUnique(m, p * w, c, e * w + l);
  }

  /** mp_mul_2: b = 2 * a. */
  method Mul2(a: MpInt, b: MpInt)
    requires a.Valid() && b.Loose()
    modifies b
    ensures b.Valid() && b.Int() == 2 * old(a.Int()) && |b.dp| >= old(|b.dp|)
  {
    hide Written, Low, BP, Pow, Val;
    Grow(b, a.used + 1);
    UsedValue(a, a.used);
    ghost var X := a.dp;
    var n, olduse := a.used, b.used;
    assert n > 0 ==> At(X, n - 1) == old(At(a.dp, a.used - 1));
    b.used := n;
    var r := DoubleDigits(a, b, n);
    if r != 0 {
      b.dp := b.dp[n := 1];
      b.used := n + 1;
    }
    ClearAbove(b, b.used, olduse);
    b.sign := a.sign;
    DoubleTop(X, b.dp, n, b.used);
  }

  method DoubleDigits(a: MpInt, b: MpInt, n: nat) returns (r: int)
    requires DigitsOk(a.dp) && DigitsOk(b.dp) && n <= |a.dp| && n < |b.dp|
    modifies b`dp
    ensures 0 <= r < 2 && DigitsOk(b.dp) && Tail(b.dp, old(b.dp), n)
    ensures r == 0 ==> Low(b.dp, n) == 2 * old(Low(a.dp, n))
    ensures DigitsOk(b.dp[n := r]) && Low(b.dp[n := r], n + 1) == 2 * old(Low(a.dp, n))
  {
    hide Written, Low, BP, Pow;
    ghost var X, C := a.dp, b.dp;
    r := 0;
    var x := 0;
    WrittenNone(b.dp);
    LowNone(X);
    HalfRadix();
    while x < n
      invariant x <= n && 0 <= r < 2
      invariant |b.dp| == |C| && Written(b.dp, C, x, r, 2 * Low(X, x))
      invariant Tail(a.dp, X, x)
    {
      var rr := a.dp[x] / (B / 2);
      DoubleColumn(b.dp, C, X, x, r);
      b.dp := b.dp[x := (a.dp[x] * 2) % B + r];
      r := rr;
      x := x + 1;
    }
    DoubleEnd(b.dp, C, X, n, r);
  }

  lemma HalfRadix()
    ensures B == 2 * (B / 2)
  {
    WidthBound();
  }

  lemma DoubleColumn(s: seq<int>, was: seq<int>, X: seq<int>, x: nat, r: int)
    requires 0 <= r < 2 && DigitsOk(X) && x < |X| && x < |s| && Written(s, was, x, r, 2 * Low(X, x))
    ensures Written(s[x := (X[x] * 2) % B + r], was, x + 1, X[x] / (B / 2), 2 * Low(X, x + 1))
    ensures 0 <= X[x] / (B / 2) < 2
  {
    hide Written, Low, BP;
    HalfRadix();
    ShiftedDigit(X[x], 2, B / 2, r);
    ScaleColumn(s, was, x, r, 2, X, X[x] * 2 + r);
  }

  lemma DoubleEnd(s: seq<int>, was: seq<int>, X: seq<int>, n: nat, r: int)
    requires Written(s, was, n, r, 2 * Low(X, n)) && n < |s| && 0 <= r < 2
    ensures DigitsOk(s) && Tail(s, was, n)
    ensures r == 0 ==> Low(s, n) == 2 * Low(X, n)
    ensures DigitsOk(s[n := r]) && Low(s[n := r], n + 1) == 2 * Low(X, n)
  {
    LowUpdate(s, n, r, n);
  }

  /** Doubling leaves the top digit, or a carry above it, not zero. */
  lemma DoubleTop(X: seq<int>, s: seq<int>, n: nat, used: nat)
    requires DigitsOk(X) && DigitsOk(s) && n <= |X| && (n > 0 ==> X[n - 1] != 0)
    requires n <= used <= n + 1 && used <= |s| && Low(s, used) == 2 * Low(X, n) && (used > n ==> s[n] == 1)
    ensures used > 0 ==> s[used - 1] != 0
  {
    if n > 0 && used == n && s[n - 1] == 0 {
      TopDigit(X, n);
      LowBound(s, n - 1);
    }
  }

  /** mp_2expt: a = 2^b. */
  method TwoExpt(a: MpInt, b: nat)
    requires a.Loose()
    modifies a
    ensures a.Valid() && a.Int() == Pow(2, b) && |a.dp| >= old(|a.dp|)
  {
    hide Low, Pow;
    Zero(a);
    Grow(a, b / DIGIT_BIT + 1);
    var k, d := b / DIGIT_BIT, b % DIGIT_BIT;
    ghost var was := a.dp;
    a.used := k + 1;
    PowBelow(d);
    a.dp := a.dp[k := Pow(2, d)];
    UsedValue(a, k + 1);
    LowUpdate(was, k, Pow(2, d), k + 1);
    LowZeros(was, 0, k + 1);
    LowNone(was);
    ShiftAmount(b, k, d, 1);
  }

  lemma PowBelow(d: nat)
    requires d < DIGIT_BIT
    ensures 0 < Pow(2, d) < B
  {
    PowMono(2, d + 1, DIGIT_BIT);
  }
}
