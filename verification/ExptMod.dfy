/** mp_exptmod_fast with Montgomery reduction: sliding-window exponentiation (bn_mp_exptmod_fast.c). */
module ExptMod {
  import opened Arith
  import opened Digits
  import opened Words
  import opened MpInts
  import opened MpShift
  import opened MpSmall
  import opened MpDiv
  import opened Montgomery
  import opened MontgomeryFast
  import opened MontgomerySetup
  import opened Mul
  import opened MpMod
  import opened ExptArith

  /** MP_LOW_MEM */
  const LOW_MEM: bool
  const TAB_SIZE: nat := if LOW_MEM then 32 else 256

  /** An odd modulus of P.used digits, with its rho. */
  ghost predicate Ready(P: MpInt, mp: int)
    reads P
  {
    P.Valid() && P.Int() > 0 && P.Mag() % 2 == 1 && P.used > 0 && IsRho(mp, P.dp[0])
  }

  lemma ReadyMeans(P: MpInt, mp: int)
    requires Ready(P, mp)
    ensures P.Valid() && P.Ok() && P.used > 0 && IsRho(mp, P.dp[0])
    ensures P.Int() == P.Mag() && 0 < P.Mag() < BP(P.used) && P.Mag() % 2 == 1
  {
    MagBounds(P);
  }

  /** The reduction in use: the column form when the modulus is short enough. */
  method Redux(x: MpInt, P: MpInt, mp: nat)
    requires x.Valid() && x.sign == ZPos && x != P && Ready(P, mp) && InRange(x.Int(), P.Int(), P.used)
    modifies x
    ensures x.Valid() && x.sign == ZPos && Reduced(x.Int(), old(x.Int()), P.Int(), P.used)
  {
    hide *;
    ReadyMeans(P, mp);
    Plain(x);
    if P.used * 2 + 1 < WARRAY && P.used < COLUMNS {
      ReduceColumns(x, P, mp);
    } else {
      Reduce(x, P, mp);
    }
    ZeroIsPlain(x);
  }

  lemma ZeroIsPlain(x: MpInt)
    requires x.Valid() && (x.sign == ZPos || x.used == 0)
    ensures x.sign == ZPos && x.Int() == x.Mag()
  {}

  /** x holds the form of g^e. */
  ghost predicate Holds(x: MpInt, g: int, e: nat, P: MpInt)
    reads x, P
  {
    x.Valid() && x.sign == ZPos && P.Int() > 0 && Form(x.Int(), g, e, P.Int(), P.used)
  }

  lemma HoldsMeans(x: MpInt, g: int, e: nat, P: MpInt)
    requires Holds(x, g, e, P)
    ensures x.Valid() && x.sign == ZPos && x.Loose() && P.Int() > 0 && 0 <= x.Int() <= P.Int()
    ensures Form(x.Int(), g, e, P.Int(), P.used)
  {}

  lemma HoldsIntro(x: MpInt, g: int, e: nat, P: MpInt)
    requires x.Valid() && x.sign == ZPos && P.Int() > 0 && Form(x.Int(), g, e, P.Int(), P.used)
    ensures Holds(x, g, e, P)
  {}

  /** res = res * res, reduced. */
  method SquareRedux(res: MpInt, P: MpInt, mp: nat, ghost g: int, ghost e: nat)
    requires Ready(P, mp) && res != P && Holds(res, g, e, P)
    modifies res
    ensures Holds(res, g, 2 * e, P)
  {
    hide *;
    ReadyMeans(P, mp);
    HoldsMeans(res, g, e, P);
    ghost var x := res.Int();
    ProductInRange(x, x, P.Int(), P.used);
    Square(res, res);
    InRangePlain(res, P.Int(), P.used);
    Redux(res, P, mp);
    assert e + e == 2 * e;
    FormProduct(x, e, x, e, res.Int(), g, P.Int(), P.used);
    HoldsIntro(res, g, 2 * e, P);
  }

  lemma InRangePlain(x: MpInt, n: int, k: nat)
    requires x.Valid() && InRange(x.Int(), n, k)
    ensures x.sign == ZPos
  {
    MagBounds(x);
  }

  /** c = a * b, reduced. */
  method MulRedux(a: MpInt, b: MpInt, c: MpInt, P: MpInt, mp: nat, ghost g: int, ghost e: nat, ghost f: nat)
    requires Ready(P, mp) && c != P && c.Loose() && Holds(a, g, e, P) && Holds(b, g, f, P)
    modifies c
    ensures Holds(c, g, e + f, P)
  {
    hide *;
    ReadyMeans(P, mp);
    HoldsMeans(a, g, e, P);
    HoldsMeans(b, g, f, P);
    ghost var x, y := a.Int(), b.Int();
    ProductInRange(x, y, P.Int(), P.used);
    Multiply(a, b, c);
    InRangePlain(c, P.Int(), P.used);
    Redux(c, P, mp);
    FormProduct(x, e, y, f, c.Int(), g, P.Int(), P.used);
    HoldsIntro(c, g, e + f, P);
  }

  /** Squaring `count` times. */
  method SquareTimes(res: MpInt, P: MpInt, mp: nat, count: nat, ghost g: int, ghost e: nat)
    requires Ready(P, mp) && res != P && Holds(res, g, e, P)
    modifies res
    ensures Holds(res, g, e * Pow(2, count), P)
  {
    hide *;
    var x := 0;
    ghost var f: nat := e;
    PowNone();
    while x < count
      invariant x <= count && f == e * Pow(2, x) && Holds(res, g, f, P)
    {
      SquareRedux(res, P, mp, g, f);
      DoublePower(e, x);
      f := 2 * f;
      x := x + 1;
    }
  }

  lemma DoublePower(e: int, x: nat)
    ensures e * Pow(2, x + 1) == 2 * (e * Pow(2, x))
  {
    assert e * (2 * Pow(2, x)) == 2 * (e * Pow(2, x));
  }

  /** The table holds g in cell 1 and g^j in cells `half` up to `hi`. */
  ghost predicate TableOk(M: array<MpInt?>, half: nat, hi: nat, g: int, P: MpInt)
    reads M, M[..], P
  {
    && 1 < half <= hi <= M.Length
    && M[1] != null && Holds(M[1], g, 1, P)
    && forall j: nat :: half <= j < hi ==> M[j] != null && Holds(M[j], g, j, P)
  }

  lemma HalfTable(winsize: nat)
    requires 2 <= winsize && Pow(2, winsize) <= TAB_SIZE
    ensures 1 < Pow(2, winsize - 1) < Pow(2, winsize) == 2 * Pow(2, winsize - 1) <= TAB_SIZE
  {
    PowMono(2, 1, winsize - 1);
    PowOne(2);
  }

  /** M[1] = G * R modulo P, and M[half] by squaring it. */
  method FirstCells(G: MpInt, norm: MpInt, P: MpInt, mp: nat, winsize: nat) returns (m1: MpInt, mh: MpInt)
    requires G.Valid() && norm.Valid() && Ready(P, mp) && Normal(norm.Int(), P.Int(), P.used) && 2 <= winsize
    ensures fresh(m1) && fresh(mh) && m1 != mh && Holds(m1, G.Int(), 1, P) && Holds(mh, G.Int(), Pow(2, winsize - 1), P)
  {
    hide *;
    ReadyMeans(P, mp);
    m1 := new MpInt();
    ghost var g := G.Int();
    ResidueOfPositive(g * norm.Int(), P.Int());
    var err := MulMod(G, norm, P, m1);
    FormBase(m1.Int(), norm.Int(), g, P.Int(), P.used);
    FormRange(m1.Int(), g, 1, P.Int(), P.used);
    Plain(m1);
    HoldsIntro(m1, g, 1, P);
    mh := new MpInt.Copied(m1);
    Plain(mh);
    HoldsIntro(mh, g, 1, P);
    SquareTimes(mh, P, mp, winsize - 1, g, 1);
  }

  lemma FormRange(x: int, g: int, e: nat, n: int, k: nat)
    requires n > 0 && Form(x, g, e, n, k)
    ensures 0 <= x <= n
  {}

  /** The table; its cells are new objects. */
  method BuildTable(G: MpInt, norm: MpInt, P: MpInt, mp: nat, winsize: nat) returns (M: array<MpInt?>)
    requires G.Valid() && norm.Valid() && Ready(P, mp) && Normal(norm.Int(), P.Int(), P.used) && 2 <= winsize
    requires Pow(2, winsize) <= TAB_SIZE
    ensures fresh(M) && (forall j :: 0 <= j < M.Length && M[j] != null ==> fresh(M[j]))
    ensures TableOk(M, Pow(2, winsize - 1), Pow(2, winsize), G.Int(), P)
  {
    hide Pow, BP, Holds, Ready, TAB_SIZE;
    HalfTable(winsize);
    ghost var g := G.Int();
    M := new MpInt?[TAB_SIZE](_ => null);
    var half, size := Pow(2, winsize - 1), Pow(2, winsize);
    M[1], M[half] := FirstCells(G, norm, P, mp, winsize);
    var x := half + 1;
    while x < size
      invariant half < x <= size <= M.Length
      invariant forall j :: 0 <= j < M.Length && M[j] != null ==> fresh(M[j])
      invariant TableOk(M, half, x, g, P)
      modifies M
    {
      var mx := NextCell(M[x - 1], M[1], P, mp, g, x - 1);
      SetCell(M, mx, half, x, g, P);
      x := x + 1;
    }
  }

  /** The next cell of the table, a new object: g^(e + 1) from g^e. */
  method NextCell(last: MpInt, m1: MpInt, P: MpInt, mp: nat, ghost g: int, ghost e: nat) returns (mx: MpInt)
    requires Ready(P, mp) && Holds(last, g, e, P) && Holds(m1, g, 1, P)
    ensures fresh(mx) && Holds(mx, g, e + 1, P)
  {
    hide *;
    mx := new MpInt();
    ValidIsLoose(mx);
    MulRedux(last, m1, mx, P, mp, g, e, 1);
  }

  method SetCell(M: array<MpInt?>, mx: MpInt, ghost half: nat, x: nat, ghost g: int, ghost P: MpInt)
    requires x < M.Length && TableOk(M, half, x, g, P) && Holds(mx, g, x, P)
    modifies M
    ensures M[..] == old(M[..])[x := mx] && TableOk(M, half, x + 1, g, P)
  {
    hide Holds;
    M[x] := mx;
  }

  /** Where the window stands: v is the exponent read so far, r the part already in res,
      w the `bitcpy` bits waiting in the window, bitbuf the same bits at the top of winsize places. */
  ghost predicate Window(v: int, r: nat, w: nat, bitbuf: nat, bitcpy: nat, mode: nat, winsize: nat) {
    && (mode == 0 || mode == 1 || mode == 2) && bitcpy < winsize
    && (mode == 0 ==> r == 0)
    && (mode != 2 ==> bitcpy == 0 && bitbuf == 0 && w == 0 && v == r)
    && (mode == 2 ==> 0 < bitcpy && Pow(2, bitcpy - 1) <= w < Pow(2, bitcpy))
    && bitbuf == w * Pow(2, winsize - bitcpy) && v == r * Pow(2, bitcpy) + w
  }

  lemma WindowStart(winsize: nat)
    requires winsize > 0
    ensures Window(0, 0, 0, 0, 0, 0, winsize)
  {}

  lemma WindowMeans(v: int, r: nat, w: nat, bitbuf: nat, bitcpy: nat, mode: nat, winsize: nat)
    requires Window(v, r, w, bitbuf, bitcpy, mode, winsize)
    ensures (mode == 0 || mode == 1 || mode == 2) && bitcpy < winsize
    ensures mode == 0 ==> r == 0
    ensures mode != 2 ==> bitcpy == 0 && v == r
    ensures mode == 2 ==> bitcpy > 0
  {}

  /** Outside a window a zero bit doubles the exponent, which for a leading zero is still nothing. */
  lemma WindowZero(v: int, r: nat, w: nat, bitbuf: nat, bitcpy: nat, mode: nat, winsize: nat)
    requires Window(v, r, w, bitbuf, bitcpy, mode, winsize) && mode != 2
    ensures Window(2 * v, 2 * r, w, bitbuf, bitcpy, mode, winsize)
  {
    MulAssoc(2, r, Pow(2, bitcpy));
  }

  lemma WindowPowers(winsize: nat, bitcpy: nat)
    requires bitcpy < winsize
    ensures Pow(2, winsize - bitcpy) == 2 * Pow(2, winsize - (bitcpy + 1)) && Pow(2, bitcpy + 1) == 2 * Pow(2, bitcpy)
    ensures bitcpy > 0 ==> Pow(2, bitcpy) == 2 * Pow(2, bitcpy - 1)
    ensures bitcpy == 0 ==> Pow(2, bitcpy) == 1
    ensures bitcpy + 1 == winsize ==> Pow(2, winsize - (bitcpy + 1)) == 1
  {
    PowNone();
  }

  /** The window's arithmetic, with p and s the weights of the bits around the new one. */
  lemma WindowSums(v: int, r: int, w: int, b: int, p: int, low: int, s: int, y: int, first: bool)
    requires b == w * (2 * s) && v == r * p + w && 0 <= y <= 1
    requires if first then p == 1 && w == 0 && y == 1 else p == 2 * low && low <= w < p
    ensures b + y * s == (2 * w + y) * s && 2 * v + y == r * (2 * p) + (2 * w + y)
    ensures p <= 2 * w + y < 2 * p
  {
    MulAssoc(w, 2, s);
    MulDist(2 * w, y, s);
    assert r * (2 * p) == 2 * (r * p);
  }

  /** A bit enters the window. */
  lemma WindowBit(v: int, r: nat, w: nat, bitbuf: nat, bitcpy: nat, mode: nat, winsize: nat, y: nat)
    requires Window(v, r, w, bitbuf, bitcpy, mode, winsize) && y <= 1 && (mode != 2 ==> y == 1)
    ensures var w', b', c' := 2 * w + y, bitbuf + y * Pow(2, winsize - (bitcpy + 1)), bitcpy + 1;
      && b' == w' * Pow(2, winsize - c') && 2 * v + y == r * Pow(2, c') + w'
      && Pow(2, bitcpy) <= w' < Pow(2, c')
      && (c' == winsize ==> b' == w')
      && (c' < winsize ==> Window(2 * v + y, r, w', b', c', 2, winsize))
  {
    hide Pow;
    var p, s := Pow(2, bitcpy), Pow(2, winsize - (bitcpy + 1));
    var low := if bitcpy > 0 then Pow(2, bitcpy - 1) else 0;
    WindowPowers(winsize, bitcpy);
    WindowSums(v, r, w, bitbuf, p, low, s, y, bitcpy == 0);
    TimesOne(2 * w + y);
  }

  lemma TimesOne(w: int)
    ensures w * 1 == w
  {}

  /** One bit of the exponent. */
  method TakeBit(res: MpInt, M: array<MpInt?>, P: MpInt, mp: nat, winsize: nat, y: nat, mode: nat, bitbuf: nat, bitcpy: nat,
      ghost g: int, ghost v: int, ghost r: nat, ghost w: nat)
    returns (mode': nat, bitbuf': nat, bitcpy': nat, ghost r': nat, ghost w': nat)
    requires 2 <= winsize && y <= 1
    requires Ready(P, mp) && res != P && res !in M[..] && TableOk(M, Pow(2, winsize - 1), Pow(2, winsize), g, P)
    requires Holds(res, g, r, P) && Window(v, r, w, bitbuf, bitcpy, mode, winsize)
    modifies res
    ensures Holds(res, g, r', P) && Window(2 * v + y, r', w', bitbuf', bitcpy', mode', winsize)
  {
    hide Pow, Holds, Ready, Window;
    WindowMeans(v, r, w, bitbuf, bitcpy, mode, winsize);
    if mode != 2 && y == 0 { WindowZero(v, r, w, bitbuf, bitcpy, mode, winsize); }
    mode', bitbuf', bitcpy', r', w' := mode, bitbuf, bitcpy, r, w;
    if mode == 0 && y == 0 { return; }
    if mode == 1 && y == 0 {
      SquareRedux(res, P, mp, g, r);
      r' := 2 * r;
      return;
    }
    WindowBit(v, r, w, bitbuf, bitcpy, mode, winsize, y);
    bitcpy' := bitcpy + 1;
    bitbuf' := bitbuf + y * Pow(2, winsize - bitcpy');
    w' := 2 * w + y;
    mode' := 2;
    if bitcpy' == winsize {
      SquareTimes(res, P, mp, winsize, g, r);
      HoldsMeans(res, g, r * Pow(2, winsize), P);
      MulRedux(res, M[bitbuf'], res, P, mp, g, r * Pow(2, winsize), bitbuf');
      r' := r * Pow(2, winsize) + w';
      w', bitcpy', bitbuf', mode' := 0, 0, 0, 1;
      WindowEmpty(2 * v + y, r', winsize);
    }
  }

  lemma WindowEmpty(v: int, r: nat, winsize: nat)
    requires v == r && winsize > 0
    ensures Window(v, r, 0, 0, 0, 1, winsize)
  {}

  lemma TailBit(w: nat, bitcpy: nat, x: nat, winsize: nat, bitbuf: int, r: nat, e: int)
    requires x < bitcpy < winsize && bitbuf == w * Pow(2, winsize - bitcpy + x) * 2
    requires e == r * Pow(2, x) + w / Pow(2, bitcpy - x)
    ensures bitbuf == w * Pow(2, winsize - bitcpy + (x + 1))
    ensures var bit := bitbuf / Pow(2, winsize) % 2;
      0 <= bit <= 1 && 2 * e + bit == r * Pow(2, x + 1) + w / Pow(2, bitcpy - (x + 1))
  {
    var k := bitcpy - x - 1;
    var p, s := Pow(2, k), Pow(2, winsize - k);
    PowAdd(2, k, winsize - k);
    assert winsize - bitcpy + (x + 1) == winsize - k;
    assert bitbuf == w * s by {
      PowAdd(2, winsize - bitcpy + x, 1);
      PowOne(2);
      MulAssoc(w, Pow(2, winsize - bitcpy + x), 2);
    }
    DropBits(w, p, s, bitbuf);
    assert Pow(2, bitcpy - x) == 2 * p by { assert bitcpy - x == k + 1; }
    HalveQuotient(w, p);
    DoublePower(r, x);
  }

  lemma DropBits(w: nat, p: int, s: int, b: int)
    requires p > 0 && s > 0 && b == w * s
    ensures p * s > 0 && b / (p * s) == w / p
  {
    MulPositive(p, s);
    var h, l := w / p, w % p;
    DivModDef(w, p);
    MulDist(h * p, l, s);
    MulAssoc(h, p, s);
    MulMono(l, p - 1, s);
    MulNonNegative(l, s);
    MulDist(p, 1, s);
    DivModUnique(b, p * s, h, l * s);
  }

  lemma HalveQuotient(w: nat, p: int)
    requires p > 0
    ensures w / p == 2 * (w / (2 * p)) + w / p % 2
  {
    var h, l := w / p, w % p;
    DivModDef(w, p);
    MulDist(2 * (h / 2), h % 2, p);
    MulAssoc(h / 2, 2, p);
    assert h == 2 * (h / 2) + h % 2;
    assert h % 2 * p == if h % 2 == 1 then p else 0;
    DivModUnique(w, 2 * p, h / 2, h % 2 * p + l);
  }

  /** The bits left in the window at the end: square, and multiply where a bit is set. */
  method Leftover(res: MpInt, m1: MpInt, P: MpInt, mp: nat, winsize: nat, bitbuf0: nat, bitcpy: nat,
      ghost g: int, ghost v: int, ghost r: nat, ghost w: nat)
    requires Ready(P, mp) && res != P && res != m1 && Holds(m1, g, 1, P) && Holds(res, g, r, P)
    requires Window(v, r, w, bitbuf0, bitcpy, 2, winsize)
    modifies res
    ensures v >= 0 && Holds(res, g, v, P)
  {
    hide *;
    WindowFull(v, r, w, bitbuf0, bitcpy, winsize);
    var bitbuf := bitbuf0;
    var x := 0;
    ghost var e: nat := r;
    TailStart(r, w, bitcpy, winsize);
    while x < bitcpy
      invariant x <= bitcpy && bitbuf == w * Pow(2, winsize - bitcpy + x)
      invariant e == r * Pow(2, x) + w / Pow(2, bitcpy - x)
      invariant Holds(res, g, e, P)
    {
      SquareRedux(res, P, mp, g, e);
      bitbuf := bitbuf * 2;
      TailBit(w, bitcpy, x, winsize, bitbuf, r, e);
      e := 2 * e;
      var bit := bitbuf / Pow(2, winsize) % 2;
      if bit != 0 {
        HoldsMeans(res, g, e, P);
        MulRedux(res, m1, res, P, mp, g, e, 1);
        e := e + 1;
      }
      x := x + 1;
    }
    TailEnd(r, w, bitcpy);
  }

  lemma WindowFull(v: int, r: nat, w: nat, bitbuf: nat, bitcpy: nat, winsize: nat)
    requires Window(v, r, w, bitbuf, bitcpy, 2, winsize)
    ensures 0 < bitcpy < winsize && w < Pow(2, bitcpy) && bitbuf == w * Pow(2, winsize - bitcpy + 0)
    ensures v == r * Pow(2, bitcpy) + w
  {}

  lemma TailEnd(r: nat, w: nat, bitcpy: nat)
    ensures r * Pow(2, bitcpy) + w / Pow(2, bitcpy - bitcpy) == r * Pow(2, bitcpy) + w
  {
    assert Pow(2, 0) == 1;
  }

  lemma TailStart(r: nat, w: nat, bitcpy: nat, winsize: nat)
    requires bitcpy < winsize && w < Pow(2, bitcpy)
    ensures r == r * Pow(2, 0) + w / Pow(2, bitcpy)
  {
    DivModUnique(w, Pow(2, bitcpy), 0, w);
  }

  /** Window size by the length of the exponent. */
  function WindowSize(x: nat): (w: nat)
    ensures 2 <= w <= (if LOW_MEM then 5 else 8)
  {
    var w := if x <= 7 then 2 else if x <= 36 then 3 else if x <= 140 then 4 else if x <= 450 then 5
      else if x <= 1303 then 6 else if x <= 3529 then 7 else 8;
    if LOW_MEM && w > 5 then 5 else w
  }

  lemma WindowFits(w: nat)
    requires w <= if LOW_MEM then 5 else 8
    ensures Pow(2, w) <= TAB_SIZE
  {
    PowMono(2, w, if LOW_MEM then 5 else 8);
    assert Pow(2, 5) == 32;
    assert Pow(2, 8) == 8 * Pow(2, 5);
  }

  /** The main loop: all bits of X from the top, through the window. */
  method Scan(X: MpInt, res: MpInt, M: array<MpInt?>, P: MpInt, mp: nat, winsize: nat, ghost g: int)
    returns (mode: nat, bitbuf: nat, bitcpy: nat, ghost r: nat, ghost w: nat)
    requires X.Ok() && Ready(P, mp) && res != P && res != X && res !in M[..] && 2 <= winsize
    requires TableOk(M, Pow(2, winsize - 1), Pow(2, winsize), g, P) && Holds(res, g, 0, P)
    modifies res
    ensures Holds(res, g, r, P) && Window(X.Mag(), r, w, bitbuf, bitcpy, mode, winsize)
  {
    assert DigitsOk(X.dp) && X.used <= |X.dp|;
    UsedValue(X, X.used);
    hide *;
    mode, bitbuf, bitcpy, r, w := 0, 0, 0, 0, 0;
    var bitcnt, buf, digidx := 1, 0, X.used - 1;
    ghost var v: int, d: int := 0, 0;
    WindowStart(winsize);
    ReadNone(X.dp, X.Mag(), X.used);
    NoBuffer();
    while true
      invariant 1 <= bitcnt <= DIGIT_BIT + 1 && -1 <= digidx < X.used && d >= 0
      invariant Reading(X.dp, X.Mag(), v, d, bitcnt - 1, digidx + 1)
      invariant buf == d * Pow(2, DIGIT_BIT - (bitcnt - 1))
      invariant Holds(res, g, r, P) && Window(v, r, w, bitbuf, bitcpy, mode, winsize)
      decreases digidx + 1, bitcnt
    {
      bitcnt := bitcnt - 1;
      if bitcnt == 0 {
        if digidx == -1 {
          ReadAll(X.dp, X.Mag(), v, d);
          break;
        }
        ReadDigit(X.dp, X.Mag(), v, d, digidx + 1);
        buf := X.dp[digidx];
        d := buf;
        digidx := digidx - 1;
        bitcnt := DIGIT_BIT;
        WholeBuffer(d);
      }
      TopBit(d, bitcnt, buf);
      ReadBit(X.dp, X.Mag(), v, d, bitcnt, digidx + 1, d / Pow(2, bitcnt - 1) % 2);
      var y := buf / Pow(2, DIGIT_BIT - 1) % 2;
      buf := buf * 2;
      mode, bitbuf, bitcpy, r, w := TakeBit(res, M, P, mp, winsize, y, mode, bitbuf, bitcpy, g, v, r, w);
      v := 2 * v + y;
    }
  }

  lemma NoBuffer()
    ensures 0 == 0 * Pow(2, DIGIT_BIT - 0)
  {}

  lemma WholeBuffer(d: int)
    ensures d == d * Pow(2, DIGIT_BIT - DIGIT_BIT)
  {
    assert Pow(2, 0) == 1;
  }

  lemma TableFirst(M: array<MpInt?>, half: nat, hi: nat, g: int, P: MpInt)
    requires TableOk(M, half, hi, g, P)
    ensures 1 < M.Length && M[1] != null && Holds(M[1], g, 1, P)
  {}

  lemma OddUsed(P: MpInt)
    requires P.Valid() && P.Int() >= 0
    ensures |P.dp| > 0 && P.sign == ZPos && P.Int() == P.Mag() && (P.Int() > 0 ==> P.used > 0)
  {
    MagBounds(P);
  }

  lemma ReadyIntro(P: MpInt, mp: int)
    requires P.Valid() && P.Int() > 0 && P.Mag() % 2 == 1 && P.used > 0 && |P.dp| > 0 && IsRho(mp, P.dp[0])
    ensures Ready(P, mp)
  {}

  /** mp_exch of the result into place. */
  method Deliver(a: MpInt, b: MpInt)
    requires a.Valid() && a != b
    modifies a, b
    ensures b.Valid() && b.Int() == old(a.Int())
  {
    Exch(a, b);
  }

  /** The computation itself, once the modulus is set up. */
  method Power(G: MpInt, X: MpInt, P: MpInt, mp: nat, winsize: nat) returns (res: MpInt)
    requires G.Valid() && X.Valid() && Ready(P, mp) && 2 <= winsize && Pow(2, winsize) <= TAB_SIZE
    ensures fresh(res) && res.Valid() && res.Int() == Pow(G.Int(), Abs(X.Int())) % P.Mag()
  {
    hide *;
    ReadyMeans(P, mp);
    ValidIsLoose(X);
    MagIsAbs(X);
    ghost var g, e := G.Int(), Abs(X.Int());
    res := NormalForm(P, mp);
    var M := BuildTable(G, res, P, mp, winsize);
    assert res !in M[..];
    NormalIsOne(res, g, P);
    var mode, bitbuf, bitcpy, r, w := Scan(X, res, M, P, mp, winsize, g);
    WindowMeans(e, r, w, bitbuf, bitcpy, mode, winsize);
    if mode == 2 && bitcpy > 0 {
      TableFirst(M, Pow(2, winsize - 1), Pow(2, winsize), g, P);
      Leftover(res, M[1], P, mp, winsize, bitbuf, bitcpy, g, e, r, w);
    }
    FinalRedux(res, P, mp, g, e);
  }

  /** R modulo P, or 1 for the modulus 1. */
  method NormalForm(P: MpInt, ghost mp: nat) returns (res: MpInt)
    requires Ready(P, mp)
    ensures fresh(res) && res.Valid() && P.Int() == P.Mag() > 0 && Normal(res.Int(), P.Int(), P.used)
  {
    hide *;
    ReadyMeans(P, mp);
    res := new MpInt();
    Plain(res);
    OddBeginsBelow(P.Mag(), P.used);
    CalcNormalization(res, P);
    NormalValue(res.Int(), P.Mag(), P.used);
  }

  lemma NormalIsOne(res: MpInt, g: int, P: MpInt)
    requires res.Valid() && P.Int() == P.Mag() > 0 && Normal(res.Int(), P.Int(), P.used)
    ensures Holds(res, g, 0, P)
  {
    hide Pow, BP;
    FormOne(res.Int(), g, P.Int(), P.used);
    MagBounds(res);
  }

  method FinalRedux(res: MpInt, P: MpInt, mp: nat, ghost g: int, ghost e: nat)
    requires Ready(P, mp) && res != P && Holds(res, g, e, P)
    modifies res
    ensures res.Valid() && res.Int() == Pow(g, e) % P.Mag()
  {
    hide *;
    HoldsMeans(res, g, e, P);
    ReadyMeans(P, mp);
    ghost var form := res.Int();
    ResidueInRange(form, P.Int(), P.used);
    Redux(res, P, mp);
    FormEnd(form, e, res.Int(), g, P.Int(), P.used);
  }

  lemma MagIsAbs(X: MpInt)
    requires X.Valid()
    ensures X.Mag() == Abs(X.Int())
  {
    MagBounds(X);
  }

  /** mp_exptmod_fast, Montgomery mode: Y = G^|X| modulo P. */
  method ExptModFast(G: MpInt, X: MpInt, P: MpInt, Y: MpInt) returns (err: Status)
    requires G.Valid() && X.Valid() && P.Valid() && Y.Valid() && P.Int() >= 0
    modifies Y
    ensures Y.Valid() && err == if old(P.Int()) % 2 == 0 then BadValue else Okay
    ensures Y.Int() == if err == Okay then Pow(old(G.Int()), Abs(old(X.Int()))) % old(P.Int()) else old(Y.Int())
  {
    hide *;
    ValidIsLoose(X);
    OddUsed(P);
    Plain(P);
    Parity(P);
    var x := CountBits(X);
    var winsize := WindowSize(x);
    WindowFits(winsize);
    var mp: nat;
    err, mp := Setup(P);
    if err != Okay { return; }
    ReadyIntro(P, mp);
    var res := Power(G, X, P, mp, winsize);
    Deliver(res, Y);
  }
}
