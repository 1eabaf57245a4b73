/** Residues (bn_mp_mod.c, bn_mp_mulmod.c, bn_mp_sqrmod.c). */
module MpMod {
  import opened Arith
  import opened Digits
  import opened MpInts
  import opened MpAdd
  import opened MpDiv
  import opened Mul

  /** What mp_mod computes.  For a negative modulus a zero remainder has the "wrong" sign. */
  function Residue(a: int, b: int): int
    requires b != 0
  {
    var r := Rem(a, b);
    if (r < 0) == (b < 0) then r else b + r
  }

  lemma ResidueOfPositive(a: int, b: int)
    requires b > 0
    ensures Residue(a, b) == a % b
  {
    QuotRem(a, b);
    var q, r := Quot(a, b), Rem(a, b);
    if r < 0 {
      MulDist(q, 1, b);
      DivModUnique(a, b, q - 1, b + r);
    } else {
      DivModUnique(a, b, q, r);
    }
  }

  /** With a negative modulus the result lies in b < c <= 0 exactly when b does not divide a. */
  lemma ResidueOfNegative(a: int, b: int)
    requires b < 0
    ensures b <= Residue(a, b) < 0
    ensures b < Residue(a, b) <= 0 <==> Rem(a, b) != 0
    ensures exists q :: a == q * b + Residue(a, b)
  {
    QuotRem(a, b);
    var q, r := Quot(a, b), Rem(a, b);
    if r >= 0 {
      MulDist(q, 1, b);
      assert a == (q - 1) * b + Residue(a, b);
    } else {
      assert a == q * b + Residue(a, b);
    }
  }

  /** mp_mod */
  method Mod(a: MpInt, b: MpInt, c: MpInt) returns (res: Status)
    requires a.Valid() && b.Valid() && c.Valid()
    modifies c
    ensures c.Valid() && res == if old(b.Int()) == 0 then BadValue else Okay
    ensures c.Int() == if old(b.Int()) == 0 then old(c.Int()) else Residue(old(a.Int()), old(b.Int()))
  {
    hide Low, BP, Val, DigitsOk, At, Rem, Quot;
    var t := new MpInt();
    res := Div(a, b, null, t);
    if res != Okay { return; }
    SignMeans(t);
    SignMeans(b);
    if t.sign != b.sign {
      Add(b, t, c);
    } else {
      Exch(t, c);
    }
  }

  /** mp_mulmod */
  method MulMod(a: MpInt, b: MpInt, c: MpInt, d: MpInt) returns (res: Status)
    requires a.Valid() && b.Valid() && c.Valid() && d.Valid()
    modifies d
    ensures d.Valid() && res == if old(c.Int()) == 0 then BadValue else Okay
    ensures d.Int() == if old(c.Int()) == 0 then old(d.Int()) else Residue(old(a.Int()) * old(b.Int()), old(c.Int()))
  {
    hide *;
    var t := new MpInt();
    Plain(t);
    Multiply(a, b, t);
    res := Mod(t, c, d);
  }

  /** mp_sqrmod */
  method SqrMod(a: MpInt, b: MpInt, c: MpInt) returns (res: Status)
    requires a.Valid() && b.Valid() && c.Valid()
    modifies c
    ensures c.Valid() && res == if old(b.Int()) == 0 then BadValue else Okay
    ensures c.Int() == if old(b.Int()) == 0 then old(c.Int()) else Residue(old(a.Int()) * old(a.Int()), old(b.Int()))
  {
    hide *;
    var t := new MpInt();
    Plain(t);
    Square(a, t);
    res := Mod(t, b, c);
  }
}
