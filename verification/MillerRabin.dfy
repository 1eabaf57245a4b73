/** mp_prime_miller_rabin (bn_mp_prime_miller_rabin.c). */
module MillerRabin {
  import opened Arith
  import opened Congruences
  import opened Digits
  import opened Primes
  import opened MpInts
  import opened MpShift
  import opened MpSmall
  import opened MpDiv
  import opened MpMod
  import opened ExptMod

  /** The j-th number tested: b to the odd part of a - 1, squared j times. */
  function Tested(a: int, b: int, j: nat): int
    requires a > 1
  {
    Pow(b, Abs(OddPart(a - 1)) * Pow(2, j)) % a
  }

  /** a passes to the base b: the sequence starts at 1, or meets -1 before it has been squared s times. */
  ghost predicate Passes(a: int, b: int)
    requires a > 1
  {
    Tested(a, b, 0) == 1 || exists j: nat :: j < Twos(a - 1) && Tested(a, b, j) == a - 1
  }

  lemma {:induction false} PowSquared(b: int, e: nat)
    ensures Pow(b, 2 * e) == Pow(b, e) * Pow(b, e)
  {
    PowAdd(b, e, e);
    assert e + e == 2 * e;
  }

  lemma TestedRange(a: int, b: int, j: nat)
    requires a > 1
    ensures 0 <= Tested(a, b, j) < a
  {}

  /** Each number is the square of the one before. */
  lemma TestedNext(a: int, b: int, j: nat)
    requires a > 1
    ensures Tested(a, b, j + 1) == Tested(a, b, j) * Tested(a, b, j) % a
  {
    var r: nat := Abs(OddPart(a - 1));
    var e: nat := r * Pow(2, j);
    assert r * Pow(2, j + 1) == 2 * e by { assert r * (2 * Pow(2, j)) == 2 * (r * Pow(2, j)); }
    PowSquared(b, e);
    var x, y := Pow(b, e), Tested(a, b, j);
    hide Tested, Pow;
    assert y == x % a by { TestedIs(a, b, j, e); }
    assert Tested(a, b, j + 1) == Pow(b, 2 * e) % a by { TestedIs(a, b, j + 1, 2 * e); }
    CongMod(x, a);
    CongMul(x, y, x, y, a);
    CongMod(x * x, a);
    CongMod(y * y, a);
    CongSym(x * x, x * x % a, a);
    CongTrans(x * x % a, x * x, y * y, a);
    CongTrans(x * x % a, y * y, y * y % a, a);
    CongUnique(x * x % a, y * y % a, a);
  }

  lemma TestedIs(a: int, b: int, j: nat, e: nat)
    requires a > 1 && e == Abs(OddPart(a - 1)) * Pow(2, j)
    ensures Tested(a, b, j) == Pow(b, e) % a
  {}

  /** Once 1 appears, nothing but 1 follows. */
  lemma {:induction false} OnesFollow(a: int, b: int, i: nat, j: nat)
    requires a > 2 && i <= j && Tested(a, b, i) == 1
    ensures Tested(a, b, j) == 1
    decreases j
  {
    if i < j {
      OnesFollow(a, b, i, j - 1);
      TestedNext(a, b, j - 1);
      DivModUnique(1, a, 0, 1);
    }
  }

  /** Modulo a prime, walking back from 1 the first other number can only be -1. */
  lemma {:induction false} BackFromOne(a: int, b: int, s: nat)
    requires Prime(a) && Tested(a, b, s) == 1
    ensures Tested(a, b, 0) == 1 || exists j: nat :: j < s && Tested(a, b, j) == a - 1
    decreases s
  {
    if s > 0 {
      var y := Tested(a, b, s - 1);
      TestedNext(a, b, s - 1);
      TestedRange(a, b, s - 1);
      CongMod(y * y, a);
      RootsOfOne(y, a);
      if y == 1 { BackFromOne(a, b, s - 1); }
    }
  }

  /** A multiple of a only ever gives zero. */
  lemma MultipleFails(a: int, b: int, j: nat)
    requires Prime(a) && a > 2 && Divides(a, b)
    ensures Tested(a, b, j) == 0
  {
    OddPartMeans(a - 1);
    var k := DividesElim(a, b);
    var e: nat := Abs(OddPart(a - 1)) * Pow(2, j);
    MulPositive(OddPart(a - 1), Pow(2, j));
    assert Pow(b, e) == b * Pow(b, e - 1);
    assert k * a * Pow(b, e - 1) == k * Pow(b, e - 1) * a by {
      MulAssoc(k, a, Pow(b, e - 1));
      MulAssoc(k, Pow(b, e - 1), a);
    }
    DivModUnique(Pow(b, e), a, k * Pow(b, e - 1), 0);
  }

  /** No prime is ever rejected, except to a base it divides. */
  lemma PrimePasses(a: int, b: nat)
    requires Prime(a) && a > 2
    ensures Passes(a, b) <==> !Divides(a, b)
  {
    OddPartMeans(a - 1);
    var s := Twos(a - 1);
    if Divides(a, b) {
      forall j: nat ensures Tested(a, b, j) == 0 { MultipleFails(a, b, j); }
    } else {
      Fermat(b, a);
      TestedIs(a, b, s, a - 1);
      CongMod(Pow(b, a - 1), a);
      CongSym(Pow(b, a - 1), Pow(b, a - 1) % a, a);
      CongTrans(Pow(b, a - 1) % a, Pow(b, a - 1), 1, a);
      CongUnique(Pow(b, a - 1) % a, 1, a);
      BackFromOne(a, b, s);
    }
  }

  /** After -1 comes 1. */
  lemma OneAfterMinusOne(a: int, b: int, j: nat)
    requires a > 2 && Tested(a, b, j) == a - 1
    ensures Tested(a, b, j + 1) == 1
  {
    TestedNext(a, b, j);
    assert (a - 1) * (a - 1) == (a - 2) * a + 1;
    DivModUnique((a - 1) * (a - 1), a, a - 2, 1);
  }

  /** Any number that passes to a base, prime or not, satisfies Fermat's congruence to it. */
  lemma PassesIsFermat(a: int, b: int)
    requires a > 2 && Passes(a, b)
    ensures Pow(b, a - 1) % a == 1
  {
    OddPartMeans(a - 1);
    var s := Twos(a - 1);
    TestedIs(a, b, s, a - 1);
    if Tested(a, b, 0) == 1 {
      OnesFollow(a, b, 0, s);
    } else {
      var j: nat :| j < s && Tested(a, b, j) == a - 1;
      OneAfterMinusOne(a, b, j);
      OnesFollow(a, b, j + 1, s);
    }
  }

  /** A number fails if the sequence shows a square root of 1 other than 1 and -1, or does not come to 1. */
  lemma RootOfOneFails(a: int, b: int, j: nat)
    requires a > 2 && Tested(a, b, j) != 1 && Tested(a, b, j) != a - 1 && Tested(a, b, j + 1) == 1
    ensures !Passes(a, b) && Tested(a, b, j) * Tested(a, b, j) % a == 1
  {
    TestedNext(a, b, j);
    if Tested(a, b, 0) == 1 { OnesFollow(a, b, 0, j); }
    forall i: nat ensures Tested(a, b, i) != a - 1 {
      if Tested(a, b, i) == a - 1 {
        OneAfterMinusOne(a, b, i);
        if i < j { OnesFollow(a, b, i + 1, j); } else { OnesFollow(a, b, j + 1, if i > j then i else j + 1); }
      }
    }
  }

  /** An odd number is 1 + 2^s * r with s > 0. */
  lemma EvenBelow(a: int)
    requires a > 1 && a % 2 == 1
    ensures a - 1 > 0 && Twos(a - 1) >= 1
  {}

  /** n1 = a - 1 and y = b^r modulo a, where n1 = 2^s * r. */
  method FirstTest(a: MpInt, b: MpInt) returns (err: Status, n1: MpInt, y: MpInt, s: nat)
    requires a.Valid() && b.Valid() && a.Int() > 2 && a.Int() % 2 == 1
    ensures fresh(n1) && fresh(y) && n1 != y && err == Okay
    ensures n1.Valid() && n1.Int() == a.Int() - 1 && s == Twos(a.Int() - 1)
    ensures y.Valid() && y.Int() == Tested(a.Int(), b.Int(), 0)
  {
    hide *;
    Plain(a);
    n1 := new MpInt.Copied(a);
    Plain(n1);
    OneIsDigit();
    SubD(n1, 1, n1);
    Plain(n1);
    var r := new MpInt.Copied(n1);
    Plain(r);
    NotZero(r);
    s := CntLsb(r);
    OddPartMeans(r.Mag());
    ghost var odd, m := OddPart(r.Mag()), r.Mag();
    DivModUnique(m, Pow(2, s), odd, 0);
    DivideByOne(m);
    Div2d(r, s, r, null);
    NaturalInt(r, odd);
    y := new MpInt();
    err := ExptModFast(b, r, a, y);
    FirstTested(a.Int(), b.Int(), odd);
  }

  lemma OneIsDigit()
    ensures IsDigit(1)
  {}

  lemma NotZero(r: MpInt)
    requires r.Valid() && r.Int() > 0
    ensures r.used > 0 && r.Mag() > 0
  {
    MagBounds(r);
  }

  lemma NaturalInt(r: MpInt, m: int)
    requires r.Valid() && r.Mag() == m
    ensures Abs(r.Int()) == m
  {
    MagBounds(r);
  }

  lemma FirstTested(a: int, b: int, odd: int)
    requires a > 1 && odd == OddPart(a - 1) > 0
    ensures Abs(odd) == odd && Pow(b, Abs(odd)) % a == Tested(a, b, 0)
  {
    assert Pow(2, 0) == 1;
  }

  /** mp_prime_miller_rabin for an odd number above 2: the result says exactly whether a passes to the base b. */
  method Test(a: MpInt, b: MpInt) returns (err: Status, result: bool)
    requires a.Valid() && b.Valid() && a.Int() > 2 && a.Int() % 2 == 1
    ensures err == if b.Int() > 1 then Okay else BadValue
    ensures result <==> b.Int() > 1 && Passes(a.Int(), b.Int())
  {
    hide *;
    err, result := Okay, false;
    OneIsDigit();
    var order := CmpD(b, 1);
    CompareIs(b.Int(), 1);
    if order != Gt { return BadValue, false; }
    var n1, y, s;
    err, n1, y, s := FirstTest(a, b);
    ghost var A, D := a.Int(), b.Int();
    EvenBelow(A);
    var isOne := CmpD(y, 1);
    CompareIs(y.Int(), 1);
    var isMinus := Cmp(y, n1);
    CompareIs(y.Int(), n1.Int());
    if isOne == Eq || isMinus == Eq {
      PassNow(A, D, 0);
      return Okay, true;
    }
    var j := 1;
    FailedBefore(A, D, 0);
    while j <= s - 1 && isMinus != Eq
      invariant 1 <= j <= s && y.Valid() && n1.Valid() && n1.Int() == A - 1 && y.Int() == Tested(A, D, j - 1)
      invariant y.Int() != 1 && (isMinus == Eq <==> y.Int() == A - 1)
      invariant MissedBefore(A, D, j - 1)
      modifies y
    {
      TestedNext(A, D, j - 1);
      ResidueOfPositive(y.Int() * y.Int(), A);
      MissedOne(A, D, j);
      err := SqrMod(y, a, y);
      isOne := CmpD(y, 1);
      CompareIs(y.Int(), 1);
      if isOne == Eq {
        OnesMiss(A, D, j);
        return Okay, false;
      }
      j := j + 1;
      isMinus := Cmp(y, n1);
      CompareIs(y.Int(), n1.Int());
    }
    if isMinus != Eq {
      AllMissed(A, D, j);
      return Okay, false;
    }
    PassNow(A, D, j - 1);
    return Okay, true;
  }

  lemma CompareIs(x: int, y: int)
    ensures Compare(x, y) == Gt <==> x > y
    ensures Compare(x, y) == Eq <==> x == y
  {}

  /** Neither 1 at the start nor -1 among the first j numbers. */
  ghost predicate MissedBefore(a: int, b: int, j: nat)
    requires a > 1
  {
    Tested(a, b, 0) != 1 && forall i: nat :: i < j ==> Tested(a, b, i) != a - 1
  }

  lemma PassNow(a: int, b: int, j: nat)
    requires a > 2 && j < Twos(a - 1) && (Tested(a, b, j) == a - 1 || (j == 0 && Tested(a, b, 0) == 1))
    ensures Passes(a, b)
  {}

  lemma FailedBefore(a: int, b: int, j: nat)
    requires a > 2 && Tested(a, b, 0) != 1 && j == 0
    ensures MissedBefore(a, b, 0)
  {}

  lemma MissedOne(a: int, b: int, j: nat)
    requires a > 2 && j > 0 && MissedBefore(a, b, j - 1) && Tested(a, b, j - 1) != a - 1
    ensures MissedBefore(a, b, j)
  {}

  lemma AllMissed(a: int, b: int, j: nat)
    requires a > 2 && j > 0 && j >= Twos(a - 1) && MissedBefore(a, b, j - 1) && Tested(a, b, j - 1) != a - 1
    ensures !Passes(a, b)
  {}

  lemma OnesMiss(a: int, b: int, j: nat)
    requires a > 2 && MissedBefore(a, b, j) && Tested(a, b, j) == 1
    ensures !Passes(a, b)
  {
    forall i: nat ensures i >= j ==> Tested(a, b, i) == 1 {
      if i >= j { OnesFollow(a, b, j, i); }
    }
  }
}
