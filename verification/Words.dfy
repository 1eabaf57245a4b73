/** Double words, in which the column methods accumulate products. */
module Words {
  import opened Arith
  import opened Digits

  /** A double word has room for a product of two digits and a bit to spare (tommath.h). */
  type WordWidth = w: nat | 2 * DIGIT_BIT < w witness 2 * DIGIT_BIT + 1
  const WORD_BIT: WordWidth

  /** How many products of digits a double word is sure to hold. */
  type ColumnCount = c: nat | 2 <= c witness 2
  const COLUMNS: ColumnCount := (ColumnsBound(); Pow(2, WORD_BIT - 2 * DIGIT_BIT))

  lemma ColumnsBound()
    ensures Pow(2, WORD_BIT - 2 * DIGIT_BIT) >= 2
  {
    PowMono(2, 1, WORD_BIT - 2 * DIGIT_BIT);
    assert Pow(2, 1) == 2;
  }

  /** Length of the column array. */
  const WARRAY: nat := 2 * COLUMNS

  const LIMIT: Radix := (WordBound(); COLUMNS * (B * B))

  lemma WordBound()
    ensures COLUMNS * (B * B) == Pow(2, WORD_BIT) >= 128
  {
    PowAdd(2, DIGIT_BIT, DIGIT_BIT);
    PowAdd(2, WORD_BIT - 2 * DIGIT_BIT, 2 * DIGIT_BIT);
    MulMono(128, B, B);
    MulMono(2, COLUMNS, B * B);
  }

  type Word = w: int | 0 <= w < LIMIT

  /** Unsigned addition wraps around. */
  function WordAdd(a: Word, b: nat): (c: Word)
    ensures a + b < LIMIT ==> c == a + b
  {
    DivModDef(a + b, LIMIT);
    if a + b < LIMIT then a + b else (a + b) % LIMIT
  }

  /** The most a column holds after `i` products have been added to a digit. */
  function ColumnMax(i: nat): int { B - 1 + i * ((B - 1) * (B - 1)) }

  lemma ProductBound(mu: int, d: int)
    requires IsDigit(mu) && IsDigit(d)
    ensures 0 <= mu * d <= (B - 1) * (B - 1)
  {
    MulMono(mu, B - 1, d);
    MulMono(d, B - 1, B - 1);
    MulNonNegative(mu, d);
  }

  /** A column with up to COLUMNS - 1 products, and a carry from the column below, does not overflow. */
  lemma ColumnFits(i: nat)
    requires i < COLUMNS
    ensures ColumnMax(i) + COLUMNS * B <= LIMIT
  {
    var p, c: int := (B - 1) * (B - 1), COLUMNS;
    assert p == B * B - 2 * B + 1;
    MulMono(i, c - 1, p);
    MulDist(c, 1, p);
    assert c * p == c * (B * B) - 2 * (c * B) + c by {
      assert c * (B * B - 2 * B + 1) == c * (B * B) - c * (2 * B) + c;
    }
    MulMono(2, c, B);
    MulMono(1, B - 1, c);
    MulMono(3, B, B);
    assert c <= c * B;
  }

  /** The carry out of a word. */
  lemma WordCarry(w: Word)
    ensures 0 <= w / B < COLUMNS * B && w == w / B * B + w % B && IsDigit(w % B) && w / B <= w
  {
    MulMono(1, B, w);
    DivModDef(w, B);
    MulAssoc(COLUMNS, B, B);
    MulCancel(w / B, COLUMNS * B, B);
    MulCancel(-1, w / B, B);
  }
}
