/** Addition and subtraction of libtommath.  The destination may be either operand. */
module MpAdd {
  import opened Arith
  import opened Digits
  import opened MpInts

  /** Two buffers agree from digit `i` on. */
  ghost predicate Tail(s: seq<int>, was: seq<int>, i: nat) {
    |s| == |was| && forall k: nat :: i <= k < |s| ==> s[k] == was[k]
  }

  /** The low `i` digits have been written and, with carry `u` out of them, stand for `target`. */
  ghost predicate Written(s: seq<int>, was: seq<int>, i: nat, u: int, target: int) {
    DigitsOk(s) && Tail(s, was, i) && Low(s, i) + u * BP(i) == target
  }

  /** Writing one more column: digit t % B, carry t / B. */
  lemma WriteColumn(s: seq<int>, was: seq<int>, i: nat, u: int, target: int, t: int)
    requires Written(s, was, i, u, target) && i < |s|
    ensures Written(s[i := t % B], was, i + 1, t / B, target + (t - u) * BP(i))
  {
    DivModDef(t, B);
    BPStep(i);
    MulAssoc(t / B, B, BP(i));
    MulDist(t / B * B, t % B, BP(i));
    MulDist(t, u, BP(i));
    LowUpdate(s, i, t % B, i);
  }

  lemma WrittenMeans(s: seq<int>, was: seq<int>, i: nat, u: int, target: int)
    requires Written(s, was, i, u, target)
    ensures DigitsOk(s) && Tail(s, was, i) && Low(s, i) + u * BP(i) == target
  {}

  lemma WrittenNone(s: seq<int>)
    requires DigitsOk(s)
    ensures Written(s, s, 0, 0, 0)
  {}

  lemma CarryBit(t: int)
    requires 0 <= t < 2 * B
    ensures t / B == if t < B then 0 else 1
  {
    DivModUnique(t, B, if t < B then 0 else 1, if t < B then t else t - B);
  }

  /** s_mp_add: |c| = |a| + |b|; `x` is the operand with more digits. */
  method SAdd(a: MpInt, b: MpInt, c: MpInt)
    requires a.Loose() && b.Loose() && c.Loose()
    modifies c
    ensures c.Ok() && c.Mag() == old(a.Mag()) + old(b.Mag()) && |c.dp| >= old(|c.dp|)
    ensures c.sign == (if c.used == 0 then ZPos else old(c.sign))
  {
    if a.used > b.used {
      AddLonger(a, b, c);
    } else {
      AddLonger(b, a, c);
    }
    Clamp(c);
  }

  method AddLonger(x: MpInt, y: MpInt, c: MpInt)
    requires x.Loose() && y.Loose() && c.Loose() && y.used <= x.used
    modifies c
    ensures c.Loose() && c.Mag() == old(x.Mag()) + old(y.Mag()) && |c.dp| >= old(|c.dp|)
    ensures c.sign == old(c.sign)
  {
    hide Written, Low, BP, Val;
    var min, max := y.used, x.used;
    Grow(c, max + 1);
    UsedValue(x, max);
    UsedValue(y, max);
    ghost var X, Y, C := x.dp, y.dp, c.dp;
    var olduse := c.used;
    c.used := max + 1;
    var u, i := 0, 0;
    WrittenNone(c.dp);
    assert Low(X, 0) + Low(Y, 0) == 0 by { LowNone(X); LowNone(Y); }
    while i < min
      invariant i <= min && 0 <= u <= 1
      invariant |c.dp| == |C| && Written(c.dp, C, i, u, Low(X, i) + Low(Y, i))
      invariant Tail(x.dp, X, i) && Tail(y.dp, Y, i)
      modifies c`dp
    {
      var t := x.dp[i] + y.dp[i] + u;
      CarryBit(t);
      MulDist(X[i], Y[i], BP(i));
      LowNext(X, i);
      LowNext(Y, i);
      WriteColumn(c.dp, C, i, u, Low(X, i) + Low(Y, i), t);
      c.dp := c.dp[i := t % B];
      u := t / B;
      i := i + 1;
    }
    LowZeros(Y, min, max);
    AddHigh(x, c, min, max, u, Low(Y, min), X, C);
    ClearAbove(c, max + 1, olduse);
  }

  /** The digits of the longer operand alone, then the last carry. */
  method AddHigh(x: MpInt, c: MpInt, min: nat, max: nat, carry: nat, ghost y: int, ghost X: seq<int>, ghost C: seq<int>)
    requires carry <= 1 && min <= max <= |X| && max < |c.dp| == |C| && DigitsOk(X)
    requires Tail(x.dp, X, min) && Written(c.dp, C, min, carry, Low(X, min) + y)
    modifies c`dp
    ensures DigitsOk(c.dp) && Tail(c.dp, C, max + 1) && Low(c.dp, max + 1) == Low(X, max) + y
  {
    hide Written, Low, BP;
    var u, i := carry, min;
    while i < max
      invariant min <= i <= max && 0 <= u <= 1
      invariant |c.dp| == |C| && Written(c.dp, C, i, u, Low(X, i) + y)
      invariant Tail(x.dp, X, i)
    {
      var t := x.dp[i] + u;
      CarryBit(t);
      LowNext(X, i);
      WriteColumn(c.dp, C, i, u, Low(X, i) + y, t);
      c.dp := c.dp[i := t % B];
      u := t / B;
      i := i + 1;
    }
    CarryBit(u);
    WriteColumn(c.dp, C, i, u, Low(X, i) + y, u);
    c.dp := c.dp[i := u];
    WrittenMeans(c.dp, C, i + 1, 0, Low(X, i) + y);
  }

  /** s_mp_sub: |c| = |a| - |b| for |a| >= |b|, `b` with no more digits than `a`.  The borrow is the top bit of the wrapped digit. */
  method SSub(a: MpInt, b: MpInt, c: MpInt)
    requires a.Loose() && b.Loose() && c.Loose() && a.Mag() >= b.Mag() && b.used <= a.used
    modifies c
    ensures c.Ok() && c.Mag() == old(a.Mag()) - old(b.Mag()) && |c.dp| >= old(|c.dp|)
    ensures c.sign == (if c.used == 0 then ZPos else old(c.sign))
  {
    hide Written, Low, BP;
    var min, max := b.used, a.used;
    Grow(c, max);
    UsedValue(a, max);
    UsedValue(b, max);
    ghost var X, Y, C := a.dp, b.dp, c.dp;
    var olduse := c.used;
    c.used := max;
    var u, i := 0, 0;
    WrittenNone(c.dp);
    assert Low(X, 0) - Low(Y, 0) == 0 by { LowNone(X); LowNone(Y); }
    while i < min
      invariant i <= min && 0 <= u <= 1
      invariant |c.dp| == |C| && Written(c.dp, C, i, -u, Low(X, i) - Low(Y, i))
      invariant Tail(a.dp, X, i) && Tail(b.dp, Y, i)
      modifies c`dp
    {
      var t := a.dp[i] - b.dp[i] - u;
      BorrowBit(t);
      MulDist(X[i], Y[i], BP(i));
      LowNext(X, i);
      LowNext(Y, i);
      WriteColumn(c.dp, C, i, -u, Low(X, i) - Low(Y, i), t);
      c.dp := c.dp[i := t % B];
      u := if t < 0 then 1 else 0;
      i := i + 1;
    }
    LowZeros(Y, min, max);
    SubHigh(a, c, min, max, u, Low(Y, min), X, C);
    ClearAbove(c, max, olduse);
    Clamp(c);
  }

  lemma BorrowBit(t: int)
    requires 0 - B <= t < B
    ensures t / B == if t < 0 then -1 else 0
  {
    DivModUnique(t, B, if t < 0 then -1 else 0, if t < 0 then t + B else t);
  }

  method SubHigh(a: MpInt, c: MpInt, min: nat, max: nat, borrow: nat, ghost y: int, ghost X: seq<int>, ghost C: seq<int>)
    requires borrow <= 1 && min <= max <= |X| && max <= |c.dp| == |C| && DigitsOk(X)
    requires Tail(a.dp, X, min) && Written(c.dp, C, min, 0 - borrow, Low(X, min) - y) && y <= Low(X, max)
    modifies c`dp
    ensures DigitsOk(c.dp) && Tail(c.dp, C, max) && Low(c.dp, max) == Low(X, max) - y
  {
    hide Written, Low, BP;
    var u: int, i := borrow, min;
    while i < max
      invariant min <= i <= max && 0 <= u <= 1
      invariant |c.dp| == |C| && Written(c.dp, C, i, -u, Low(X, i) - y)
      invariant Tail(a.dp, X, i)
    {
      var t := a.dp[i] - u;
      BorrowBit(t);
      LowNext(X, i);
      WriteColumn(c.dp, C, i, -u, Low(X, i) - y, t);
      c.dp := c.dp[i := t % B];
      u := if t < 0 then 1 else 0;
      i := i + 1;
    }
    WrittenMeans(c.dp, C, i, -u, Low(X, i) - y);
    LowBound(c.dp, i);
  }

  lemma LooseNatural(a: MpInt)
    requires a.Loose()
    ensures a.Mag() >= 0
  {
    LowBound(a.dp, |a.dp|);
  }

  /** mp_add.  A shifted zero, with `used` too big, can be added to a number of the same sign. */
  method Add(a: MpInt, b: MpInt, c: MpInt)
    requires a.Valid() && b.Loose() && c.Loose() && (b.Valid() || a.sign == b.sign)
    modifies c
    ensures c.Valid() && c.Int() == old(a.Int()) + old(b.Int()) && |c.dp| >= old(|c.dp|)
  {
    hide Val;
    var sa, sb := a.sign, b.sign;
    MagBounds(a);
    LooseNatural(b);
    if sa == sb {
      c.sign := sa;
      SAdd(a, b, c);
    } else {
      MagBounds(b);
      OrderByUsed(a, b);
      OrderByUsed(b, a);
      var r := CmpMag(a, b);
      if r == Lt {
        c.sign := sb;
        SSub(b, a, c);
      } else {
        c.sign := sa;
        SSub(a, b, c);
      }
    }
    MagBounds(c);
  }

  /** mp_sub.  A zero `b` may have been shifted, leaving `used` too big, if it stays shorter than `a`. */
  method Sub(a: MpInt, b: MpInt, c: MpInt)
    requires a.Valid() && b.Loose() && c.Loose()
    requires b.Valid() || (b.Mag() == 0 && b.used < a.used)
    modifies c
    ensures c.Valid() && c.Int() == old(a.Int()) - old(b.Int()) && |c.dp| >= old(|c.dp|)
  {
    hide Val, DigitsOk;
    var sa, sb := a.sign, b.sign;
    MagBounds(a);
    if b.Valid() { MagBounds(b); OrderByUsed(a, b); OrderByUsed(b, a); }
    if sa != sb {
      c.sign := sa;
      SAdd(a, b, c);
    } else {
      var r := CmpMag(a, b);
      if r != Lt {
        c.sign := sa;
        SSub(a, b, c);
      } else {
        c.sign := if sa == ZPos then Neg else ZPos;
        SSub(b, a, c);
      }
    }
    MagBounds(c);
  }
}
