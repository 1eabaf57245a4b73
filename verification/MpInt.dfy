/** Multiple-precision integers of libtommath: the digit buffer and the operations
    that division, reduction and exponentiation are made of. */
module MpInts {
  import opened Digits

  /** Digits a fresh number has room for; 8 or 32 in tommath.h. */
  type Precision = p: nat | 8 <= p witness 8
  const MP_PREC: Precision

  datatype Sign = ZPos | Neg
  datatype Order = Lt | Eq | Gt
  datatype Status = Okay | BadValue

  function Compare(x: int, y: int): Order { if x < y then Lt else if x > y then Gt else Eq }

  function Signed(s: Sign, m: int): int { if s.Neg? then -m else m }

  class MpInt {
    var dp: seq<int>
    var used: nat
    var sign: Sign

    /** Digits in range, and zero from `used` on. */
    ghost predicate Loose()
      reads this
    {
      used <= |dp| && 0 < |dp| && DigitsOk(dp) && forall k: nat :: used <= k < |dp| ==> dp[k] == 0
    }

    /** `used` is exact. */
    ghost predicate Ok()
      reads this
    {
      Loose() && (used > 0 ==> dp[used - 1] != 0)
    }

    /** ... and zero is not negative. */
    ghost predicate Valid()
      reads this
    {
      Ok() && (used == 0 ==> sign == ZPos)
    }

    ghost function Mag(): int
      reads this
    {
      Val(dp)
    }

    ghost function Int(): int
      reads this
    {
      Signed(sign, Mag())
    }

    /** mp_init */
    constructor ()
      ensures Valid() && Int() == 0 && |dp| == MP_PREC && used == 0 && sign == ZPos
    {
      dp := seq(MP_PREC, _ => 0);
      used := 0;
      sign := ZPos;
      new;
        LowZeros(dp, 0, |dp|);
    }

    /** mp_init_size */
    constructor Sized(size: nat)
      ensures Valid() && Int() == 0 && size < |dp| && used == 0 && sign == ZPos
    {
      var n := size + MP_PREC * 2 - size % MP_PREC;
      dp := seq(n, _ => 0);
      used := 0;
      sign := ZPos;
      new;
        LowZeros(dp, 0, |dp|);
    }

    /** mp_init_copy */
    constructor Copied(b: MpInt)
      requires b.Valid()
      ensures Valid() && Int() == b.Int() && used == b.used && sign == b.sign
    {
      dp := seq(MP_PREC, _ => 0);
      used := 0;
      sign := ZPos;
      new;
        LowZeros(dp, 0, |dp|);
      Copy(b, this);
    }
  }

  /** mp_grow: more room, all of it zero. */
  method Grow(a: MpInt, size: nat)
    requires a.Loose()
    modifies a`dp
    ensures a.Loose() && size <= |a.dp| && |a.dp| >= old(|a.dp|) && a.Mag() == old(a.Mag())
    ensures forall k: nat :: At(a.dp, k) == old(At(a.dp, k))
  {
    if |a.dp| < size {
      var n := size + MP_PREC * 2 - size % MP_PREC;
      ghost var was := a.dp;
      a.dp := a.dp + seq(n - |a.dp|, _ => 0);
      LowSame(was, a.dp, 0, |was|);
      LowZeros(a.dp, |was|, |a.dp|);
    }
  }

  /** The value is that of the digits in use. */
  lemma UsedValue(a: MpInt, n: nat)
    requires a.Loose() && a.used <= n
    ensures a.Mag() == Low(a.dp, n)
  {
    LowZeros(a.dp, a.used, n);
    LowZeros(a.dp, a.used, |a.dp|);
  }

  lemma MagBounds(a: MpInt)
    requires a.Ok()
    ensures 0 <= a.Mag() < BP(a.used)
    ensures a.used == 0 <==> a.Mag() == 0
    ensures a.used > 0 ==> BP(a.used - 1) <= a.Mag()
  {
    UsedValue(a, a.used);
    LowBound(a.dp, a.used);
    if a.used > 0 {
      TopDigit(a.dp, a.used);
      BPPositive(a.used - 1);
    }
  }

  lemma ValidIsLoose(a: MpInt)
    requires a.Valid()
    ensures a.Ok() && a.Loose()
  {}

  lemma Plain(x: MpInt)
    requires x.Valid()
    ensures x.Ok() && x.Loose() && x.Mag() >= 0
    ensures x.sign == ZPos <==> x.Int() >= 0
    ensures x.sign == ZPos ==> x.Int() == x.Mag()
  {
    MagBounds(x);
  }

  lemma Unsigned(x: MpInt)
    requires x.Ok() && x.sign == ZPos
    ensures x.Valid() && x.Int() == x.Mag() >= 0 && x.Loose()
  {
    MagBounds(x);
  }

  /** mp_clamp */
  method Clamp(a: MpInt)
    requires a.used <= |a.dp|
    modifies a`used, a`sign
    ensures a.used <= old(a.used) && (a.used > 0 ==> a.dp[a.used - 1] != 0)
    ensures forall k: nat :: a.used <= k < old(a.used) ==> a.dp[k] == 0
    ensures a.sign == (if a.used == 0 then ZPos else old(a.sign))
    ensures old(a.Loose()) ==> a.Ok() && a.Mag() == old(a.Mag())
  {
    while a.used > 0 && a.dp[a.used - 1] == 0
      invariant a.used <= old(a.used) <= |a.dp| && a.sign == old(a.sign)
      invariant forall k: nat :: a.used <= k < old(a.used) ==> a.dp[k] == 0
      decreases a.used
    {
      a.used := a.used - 1;
    }
    if a.used == 0 { a.sign := ZPos; }
  }

  /** mp_zero */
  method Zero(a: MpInt)
    requires |a.dp| > 0
    modifies a
    ensures a.Valid() && a.Int() == 0 && a.used == 0 && |a.dp| == old(|a.dp|)
  {
    a.sign := ZPos;
    a.used := 0;
    var n := 0;
    while n < |a.dp|
      invariant n <= |a.dp| == old(|a.dp|) && a.used == 0 && a.sign == ZPos
      invariant forall k :: 0 <= k < n ==> a.dp[k] == 0
    {
      a.dp := a.dp[n := 0];
      n := n + 1;
    }
    LowZeros(a.dp, 0, |a.dp|);
  }

  /** mp_set */
  method Set(a: MpInt, b: nat)
    requires |a.dp| > 0
    modifies a
    ensures a.Valid() && a.Int() == b % B && |a.dp| == old(|a.dp|)
  {
    Zero(a);
    a.dp := a.dp[0 := b % B];
    a.used := if a.dp[0] != 0 then 1 else 0;
    LowZeros(a.dp, 1, |a.dp|);
    assert Low(a.dp, 1) == Low(a.dp, 0) + At(a.dp, 0) * BP(0);
  }

  /** Clears the digits from `i` up to the old size, as every operation does to finish off. */
  method ClearAbove(c: MpInt, i: nat, olduse: nat)
    requires i <= |c.dp| && olduse <= |c.dp| && DigitsOk(c.dp)
    requires forall k: nat :: i <= k < |c.dp| && olduse <= k ==> c.dp[k] == 0
    modifies c`dp
    ensures |c.dp| == old(|c.dp|) && DigitsOk(c.dp)
    ensures forall k: nat :: i <= k < |c.dp| ==> c.dp[k] == 0
    ensures forall k: nat :: k < i ==> c.dp[k] == old(c.dp[k])
    ensures Low(c.dp, i) == old(Low(c.dp, i)) && c.Mag() == Low(c.dp, i)
  {
    ghost var was := c.dp;
    var n := i;
    while n < olduse
      invariant i <= n && |c.dp| == |was| && DigitsOk(c.dp)
      invariant forall k: nat :: i <= k < |c.dp| && (k < n || olduse <= k) ==> c.dp[k] == 0
      invariant forall k: nat :: k < i ==> c.dp[k] == was[k]
    {
      c.dp := c.dp[n := 0];
      n := n + 1;
    }
    LowSame(was, c.dp, 0, i);
    LowZeros(c.dp, i, |c.dp|);
  }

  /** mp_copy, b = a. */
  method Copy(a: MpInt, b: MpInt)
    requires a.Valid() && b.Loose()
    modifies b
    ensures b.Valid() && b.Int() == old(a.Int()) && b.used == old(a.used) && b.sign == old(a.sign)
    ensures |b.dp| >= old(|b.dp|) && forall k: nat :: At(b.dp, k) == old(At(a.dp, k))
  {
    if a == b { return; }
    Grow(b, a.used);
    var n := 0;
    while n < a.used
      invariant n <= a.used <= |b.dp| && DigitsOk(b.dp) && b.used == old(b.used)
      invariant |b.dp| >= old(|b.dp|)
      invariant forall k: nat :: b.used <= k < |b.dp| && n <= k ==> b.dp[k] == 0
      invariant forall k: nat :: k < n ==> b.dp[k] == a.dp[k]
    {
      b.dp := b.dp[n := a.dp[n]];
      n := n + 1;
    }
    ClearAbove(b, n, b.used);
    b.used := a.used;
    b.sign := a.sign;
    UsedValue(a, n);
    LowSame(a.dp, b.dp, 0, n);
  }

  /** mp_exch */
  method Exch(a: MpInt, b: MpInt)
    requires a != b
    modifies a, b
    ensures a.dp == old(b.dp) && a.used == old(b.used) && a.sign == old(b.sign)
    ensures b.dp == old(a.dp) && b.used == old(a.used) && b.sign == old(a.sign)
  {
    a.dp, b.dp := b.dp, a.dp;
    a.used, b.used := b.used, a.used;
    a.sign, b.sign := b.sign, a.sign;
  }

  lemma OrderByUsed(a: MpInt, b: MpInt)
    requires a.Loose() && b.Loose()
    ensures a.used > b.used && a.Ok() && b.Ok() ==> a.Mag() > b.Mag()
  {
    if a.used > b.used && a.Ok() && b.Ok() {
      MagBounds(a);
      MagBounds(b);
      BPMono(b.used, a.used - 1);
    }
  }

  /** mp_cmp_mag.  It trusts `used`: without clamped operands the longer one wins. */
  method CmpMag(a: MpInt, b: MpInt) returns (r: Order)
    requires a.Loose() && b.Loose()
    ensures a.used != b.used ==> r == (if a.used > b.used then Gt else Lt)
    ensures a.used == b.used || (a.Ok() && b.Ok()) ==> r == Compare(a.Mag(), b.Mag())
  {
    OrderByUsed(a, b);
    OrderByUsed(b, a);
    if a.used > b.used { return Gt; }
    if a.used < b.used { return Lt; }
    UsedValue(a, a.used);
    UsedValue(b, b.used);
    var n := a.used;
    while n > 0
      invariant n <= a.used
      invariant forall k: nat :: n <= k < a.used ==> At(a.dp, k) == At(b.dp, k)
    {
      n := n - 1;
      if a.dp[n] > b.dp[n] {
        FirstDifference(b.dp, a.dp, n, a.used);
        return Gt;
      }
      if a.dp[n] < b.dp[n] {
        FirstDifference(a.dp, b.dp, n, a.used);
        return Lt;
      }
    }
    LowSame(a.dp, b.dp, 0, a.used);
    r := Eq;
  }

  /** mp_cmp */
  method Cmp(a: MpInt, b: MpInt) returns (r: Order)
    requires a.Valid() && b.Valid()
    ensures r == Compare(a.Int(), b.Int())
  {
    MagBounds(a);
    MagBounds(b);
    if a.sign != b.sign {
      if a.sign == Neg { return Lt; } else { return Gt; }
    }
    if a.sign == Neg {
      r := CmpMag(b, a);
    } else {
      r := CmpMag(a, b);
    }
  }
}
