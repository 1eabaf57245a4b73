/** Columns of a product: the digits of a * b before carries. */
module MulColumns {
  import opened Arith
  import opened Digits

  /** Column n, from the low `m` digits of a. */
  function Column(a: seq<int>, b: seq<int>, m: nat, n: nat): int {
    if m == 0 then 0 else Column(a, b, m - 1, n) + Term(a, b, m - 1, n)
  }

  function Term(a: seq<int>, b: seq<int>, i: nat, n: nat): int {
    if i <= n then At(a, i) * At(b, n - i) else 0
  }

  /** The low `n` columns at their places. */
  function Columns(a: seq<int>, b: seq<int>, m: nat, n: nat): int {
    if n == 0 then 0 else Columns(a, b, m, n - 1) + Column(a, b, m, n - 1) * BP(n - 1)
  }

  /** One more digit of a contributes a shifted multiple of b. */
  lemma {:induction false} ColumnsStep(a: seq<int>, b: seq<int>, m: nat, n: nat)
    requires m <= n
    ensures Columns(a, b, m + 1, n) == Columns(a, b, m, n) + At(a, m) * (BP(m) * Low(b, n - m))
    decreases n
  {
    if n == m {
      ColumnsBelow(a, b, m, n);
    } else {
      ColumnsStep(a, b, m, n - 1);
      var k := n - 1 - m;
      assert Term(a, b, m, n - 1) == At(a, m) * At(b, k);
      MulDist(Column(a, b, m, n - 1), At(a, m) * At(b, k), BP(n - 1));
      BPAdd(m, k);
      TermPlace(At(a, m), At(b, k), BP(m), BP(k), Low(b, k));
    }
  }

  lemma TermPlace(x: int, y: int, p: int, q: int, l: int)
    ensures x * (p * l) + x * y * (p * q) == x * (p * (l + y * q))
  {
    ShiftStep(p, q, y, l);
    MulAssoc(x, y, p * q);
    assert x * (p * l + y * (p * q)) == x * (p * l) + x * (y * (p * q));
  }

  /** Columns below m do not see digit m. */
  lemma {:induction false} ColumnsBelow(a: seq<int>, b: seq<int>, m: nat, n: nat)
    requires n <= m
    ensures Columns(a, b, m + 1, n) == Columns(a, b, m, n)
    decreases n
  {
    if n > 0 { ColumnsBelow(a, b, m, n - 1); }
  }

  lemma {:induction false} NoColumns(a: seq<int>, b: seq<int>, n: nat)
    ensures Columns(a, b, 0, n) == 0
    decreases n
  {
    if n > 0 { NoColumns(a, b, n - 1); }
  }

  /** All columns together are the product. */
  lemma {:induction false} ColumnsAreProduct(a: seq<int>, b: seq<int>, m: nat, k: nat, n: nat)
    requires m + k <= n && forall j: nat :: k <= j < |b| ==> b[j] == 0
    ensures Columns(a, b, m, n) == Low(a, m) * Low(b, k)
    decreases m
  {
    if m == 0 {
      NoColumns(a, b, n);
    } else {
      ColumnsAreProduct(a, b, m - 1, k, n);
      ColumnsStep(a, b, m - 1, n);
      LowZeros(b, k, n - (m - 1));
      MulAssoc(At(a, m - 1), BP(m - 1), Low(b, k));
      MulDist(Low(a, m - 1), At(a, m - 1) * BP(m - 1), Low(b, k));
    }
  }

  /** Terms whose other factor lies above b vanish. */
  lemma {:induction false} ColumnStart(a: seq<int>, b: seq<int>, m: nat, k: nat, n: nat)
    requires m <= n + 1 && (m > 0 ==> n - m + 1 >= k) && forall j: nat :: k <= j < |b| ==> b[j] == 0
    ensures Column(a, b, m, n) == 0
    decreases m
  {
    if m > 0 {
      ColumnStart(a, b, m - 1, k, n);
      assert At(b, n - (m - 1)) == 0;
    }
  }

  /** Terms beyond column n vanish. */
  lemma {:induction false} ColumnEnd(a: seq<int>, b: seq<int>, l: nat, m: nat, n: nat)
    requires l <= m && (l > n || l == m)
    ensures Column(a, b, m, n) == Column(a, b, l, n)
    decreases m
  {
    if l < m { ColumnEnd(a, b, l, m - 1, n); }
  }

  /** The sum over pairs of a's own digits: terms i and n - i, from the outside in. */
  function Span(a: seq<int>, lo: nat, count: nat, n: nat): int {
    if count == 0 then 0 else Span(a, lo, count - 1, n) + Term(a, a, lo + count - 1, n)
  }

  lemma {:induction false} ColumnSplit(a: seq<int>, lo: nat, count: nat, n: nat)
    ensures Column(a, a, lo + count, n) == Column(a, a, lo, n) + Span(a, lo, count, n)
    decreases count
  {
    if count > 0 { ColumnSplit(a, lo, count - 1, n); }
  }

  lemma {:induction false} SpanFront(a: seq<int>, lo: nat, count: nat, n: nat)
    requires count > 0
    ensures Span(a, lo, count, n) == Term(a, a, lo, n) + Span(a, lo + 1, count - 1, n)
    decreases count
  {
    if count > 1 { SpanFront(a, lo, count - 1, n); }
  }

  /** A symmetric span is twice its first half, plus the square in the middle if there is one. */
  lemma {:induction false} SpanHalves(a: seq<int>, lo: nat, hi: nat, n: nat)
    requires lo + hi == n && lo <= hi + 1
    ensures Span(a, lo, hi + 1 - lo, n) ==
      2 * Span(a, lo, (hi + 1 - lo) / 2, n) + (if n % 2 == 0 then At(a, n / 2) * At(a, n / 2) else 0)
    decreases hi + 1 - lo
  {
    var c := hi + 1 - lo;
    if c == 0 {
      assert n == 2 * hi + 1;
    } else if c == 1 {
      assert n / 2 == lo;
      assert Span(a, lo, 1, n) == Term(a, a, lo, n);
    } else {
      SpanHalves(a, lo + 1, hi - 1, n);
      SpanFront(a, lo, c, n);
      assert Term(a, a, hi, n) == Term(a, a, lo, n);
      assert Span(a, lo + 1, c - 1, n) == Span(a, lo + 1, c - 2, n) + Term(a, a, hi, n);
      SpanFront(a, lo, c / 2, n);
      assert (c - 2) / 2 == c / 2 - 1;
    }
  }
}
