/** Structural similarity of two pictures from a rolling buffer of 4x4 block sums (tools/psnr.c). */
module Ssim {
  import opened H264

  /** Two pictures; pixel (x, y) is at position x + y * stride. */
  datatype Pictures = Pictures(pix1: seq<byte>, stride1: nat, pix2: seq<byte>, stride2: nat)

  /** Sums over some pixels: of either picture, of all squares, and of the products. */
  datatype Sums = Sums(s1: int, s2: int, ss: int, s12: int)

  const ZERO := Sums(0, 0, 0, 0)

  function Plus(a: Sums, b: Sums): Sums {
    Sums(a.s1 + b.s1, a.s2 + b.s2, a.ss + b.ss, a.s12 + b.s12)
  }

  function PixelAt(pix: seq<byte>, i: nat): byte {
    if i < |pix| then pix[i] else 0
  }

  function A(p: Pictures, x: nat, y: nat): byte { PixelAt(p.pix1, x + y * p.stride1) }

  function B(p: Pictures, x: nat, y: nat): byte { PixelAt(p.pix2, x + y * p.stride2) }

  function Pixel(p: Pictures, x: nat, y: nat): Sums {
    var a, b := A(p, x, y) as int, B(p, x, y) as int;
    Sums(a, b, a * a + b * b, a * b)
  }

  /** The sums over the w pixels from (x, y) on in one row. */
  function Row(p: Pictures, x: nat, y: nat, w: nat): Sums {
    if w == 0 then ZERO else Plus(Row(p, x, y, w - 1), Pixel(p, x + w - 1, y))
  }

  /** The sums over the rectangle of w by h pixels with its corner at (x, y). */
  function Rect(p: Pictures, x: nat, y: nat, w: nat, h: nat): Sums {
    if h == 0 then ZERO else Plus(Rect(p, x, y, w, h - 1), Row(p, x, y + h - 1, w))
  }

  // ---------- Windows are made of four blocks ----------

  lemma {:induction false} RowSplits(p: Pictures, x: nat, y: nat, v: nat, w: nat)
    ensures Row(p, x, y, v + w) == Plus(Row(p, x, y, v), Row(p, x + v, y, w))
  {
    hide Pixel, Plus;
    if w == 0 {
      PlusNothing(Row(p, x, y, v));
    } else {
      RowSplits(p, x, y, v, w - 1);
      PlusAssociative(Row(p, x, y, v), Row(p, x + v, y, w - 1), Pixel(p, x + v + w - 1, y));
    }
  }

  lemma PlusNothing(a: Sums)
    ensures Plus(a, ZERO) == a
  {
  }

  lemma PlusAssociative(a: Sums, b: Sums, c: Sums)
    ensures Plus(Plus(a, b), c) == Plus(a, Plus(b, c))
  {
  }

  lemma PlusExchange(a: Sums, b: Sums, c: Sums, d: Sums)
    ensures Plus(Plus(a, b), Plus(c, d)) == Plus(Plus(a, c), Plus(b, d))
  {
  }

  lemma {:induction false} RectSplitsAcross(p: Pictures, x: nat, y: nat, v: nat, w: nat, h: nat)
    ensures Rect(p, x, y, v + w, h) == Plus(Rect(p, x, y, v, h), Rect(p, x + v, y, w, h))
  {
    hide Row, Plus;
    if h == 0 {
      PlusNothing(ZERO);
    } else {
      RectSplitsAcross(p, x, y, v, w, h - 1);
      RowSplits(p, x, y + h - 1, v, w);
      PlusExchange(Rect(p, x, y, v, h - 1), Rect(p, x + v, y, w, h - 1),
                   Row(p, x, y + h - 1, v), Row(p, x + v, y + h - 1, w));
    }
  }

  lemma {:induction false} RectSplitsDown(p: Pictures, x: nat, y: nat, w: nat, g: nat, h: nat)
    ensures Rect(p, x, y, w, g + h) == Plus(Rect(p, x, y, w, g), Rect(p, x, y + g, w, h))
  {
    hide Row, Plus;
    if h == 0 {
      PlusNothing(Rect(p, x, y, w, g));
    } else {
      RectSplitsDown(p, x, y, w, g, h - 1);
      PlusAssociative(Rect(p, x, y, w, g), Rect(p, x, y + g, w, h - 1), Row(p, x, y + g + h - 1, w));
    }
  }

  /** The 4x4 block in column x, row z of the grid of blocks. */
  function Block(p: Pictures, x: nat, z: nat): Sums { Rect(p, 4 * x, 4 * z, 4, 4) }

  /** The 8x8 window whose lower half is block row y, summed directly. */
  function Window(p: Pictures, x: nat, y: nat): Sums
    requires y >= 1
  {
    Rect(p, 4 * x, 4 * (y - 1), 8, 8)
  }

  lemma WindowIsFourBlocks(p: Pictures, x: nat, y: nat)
    requires y >= 1
    ensures Window(p, x, y) ==
      Plus(Plus(Plus(Block(p, x, y), Block(p, x + 1, y)), Block(p, x, y - 1)), Block(p, x + 1, y - 1))
  {
    RectSplitsDown(p, 4 * x, 4 * (y - 1), 8, 4, 4);
    RectSplitsAcross(p, 4 * x, 4 * (y - 1), 4, 4, 4);
    RectSplitsAcross(p, 4 * x, 4 * y, 4, 4, 4);
  }

  // ---------- The index of a window ----------

  const C1 := 416
  const C2 := 235963

  function Vars(s: Sums): int { s.ss * 64 - s.s1 * s.s1 - s.s2 * s.s2 }

  function Covar(s: Sums): int { s.s12 * 64 - s.s1 * s.s2 }

  function Numerator(s: Sums): int { (2 * s.s1 * s.s2 + C1) * (2 * Covar(s) + C2) }

  function Denominator(s: Sums): int { (s.s1 * s.s1 + s.s2 * s.s2 + C1) * (Vars(s) + C2) }

  /** The exact quotient; the source computes it in single precision. */
  function Index(s: Sums): real
    requires Denominator(s) != 0
  {
    Numerator(s) as real / Denominator(s) as real
  }

  /** n times a sum of squares is at least the square of the sum, for the sums a+b and the differences a-b. */
  ghost predicate CauchySchwarz(n: nat, s: Sums) {
    && n * (s.ss + 2 * s.s12) >= (s.s1 + s.s2) * (s.s1 + s.s2)
    && n * (s.ss - 2 * s.s12) >= (s.s1 - s.s2) * (s.s1 - s.s2)
  }

  lemma NegativeFactor(k: int, c: int)
    requires 1 <= k
    ensures c < 0 ==> k * c < 0
  {
    if c < 0 { assert k * c <= c; }
  }

  lemma ScaledSquare(k: int, a: int, b: int)
    requires a >= b
    ensures (k * k) * a >= (k * k) * b
  {
    assert (k * k) * a - (k * k) * b == (k * k) * (a - b);
  }

  lemma ExchangeFactors(a: int, b: int, c: int, d: int)
    ensures (a * b) * (c * d) == (a * c) * (b * d)
  {
  }

  lemma Distribute(k: int, a: int, b: int, c: int)
    ensures k * (a + b - 2 * c) == k * a + k * b - 2 * (k * c)
  {
  }

  lemma CrossTerms(n: int, q: int, s: int, m: int, r: int, t: int)
    ensures (n * m) * (n * r + m * q - 2 * (t * s)) == (n * n) * (m * r) + (m * m) * (n * q) - 2 * ((n * t) * (m * s))
  {
    Distribute(n * m, n * r, m * q, t * s);
    ExchangeFactors(n, m, n, r);
    ExchangeFactors(m, n, m, q);
    ExchangeFactors(n, m, t, s);
    assert n * m == m * n;
  }

  lemma SquareOfDifference(a: int, b: int)
    ensures a * a + b * b - 2 * (a * b) == (a - b) * (a - b) >= 0
  {
    Square(a - b);
    assert (a - b) * (a - b) == (a - b) * a - (a - b) * b;
    assert (a - b) * a == a * a - b * a && (a - b) * b == a * b - b * b;
    assert b * a == a * b;
  }

  lemma Square(a: int)
    ensures a * a >= 0
  {
  }

  lemma CrossIsNonNegative(n: int, q: int, s: int, m: int, r: int, t: int)
    requires 1 <= n && 1 <= m && n * q >= s * s && m * r >= t * t
    ensures n * r + m * q >= 2 * (t * s)
  {
    ScaledSquare(n, m * r, t * t);
    ScaledSquare(m, n * q, s * s);
    CrossTerms(n, q, s, m, r, t);
    ExchangeFactors(n, n, t, t);
    ExchangeFactors(m, m, s, s);
    SquareOfDifference(n * t, m * s);
    NegativeFactor(n * m, n * r + m * q - 2 * (t * s));
  }

  lemma SumOfProducts(n: int, m: int, q: int, r: int)
    ensures (n + m) * (q + r) == n * q + m * r + (n * r + m * q)
  {
  }

  lemma MergeSquares(n: int, q: int, s: int, m: int, r: int, t: int)
    requires 1 <= n && 1 <= m && n * q >= s * s && m * r >= t * t
    ensures (n + m) * (q + r) >= (s + t) * (s + t)
  {
    CrossIsNonNegative(n, q, s, m, r, t);
    SumOfProducts(n, m, q, r);
    SumOfProducts(s, t, s, t);
  }

  lemma MergeSums(n: nat, a: Sums, m: nat, b: Sums)
    requires 1 <= n && 1 <= m && CauchySchwarz(n, a) && CauchySchwarz(m, b)
    ensures CauchySchwarz(n + m, Plus(a, b))
  {
    MergeSquares(n, a.ss + 2 * a.s12, a.s1 + a.s2, m, b.ss + 2 * b.s12, b.s1 + b.s2);
    MergeSquares(n, a.ss - 2 * a.s12, a.s1 - a.s2, m, b.ss - 2 * b.s12, b.s1 - b.s2);
  }

  lemma PixelSquares(p: Pictures, x: nat, y: nat)
    ensures CauchySchwarz(1, Pixel(p, x, y))
  {
    var a, b := A(p, x, y) as int, B(p, x, y) as int;
    assert (a + b) * (a + b) == a * a + b * b + 2 * (a * b);
    assert (a - b) * (a - b) == a * a + b * b - 2 * (a * b);
  }

  lemma {:induction false} RowSquares(p: Pictures, x: nat, y: nat, w: nat)
    requires w >= 1
    ensures CauchySchwarz(w, Row(p, x, y, w))
  {
    hide Pixel, CauchySchwarz;
    PixelSquares(p, x + w - 1, y);
    if w > 1 {
      RowSquares(p, x, y, w - 1);
      MergeSums(w - 1, Row(p, x, y, w - 1), 1, Pixel(p, x + w - 1, y));
    } else {
      assert Row(p, x, y, 1) == Plus(ZERO, Pixel(p, x, y));
    }
  }

  lemma {:induction false} RectSquares(p: Pictures, x: nat, y: nat, w: nat, h: nat)
    requires w >= 1 && h >= 1
    ensures CauchySchwarz(w * h, Rect(p, x, y, w, h))
  {
    hide Row, CauchySchwarz;
    RowSquares(p, x, y + h - 1, w);
    if h > 1 {
      RectSquares(p, x, y, w, h - 1);
      assert w * (h - 1) >= 1 && w * (h - 1) + w == w * h;
      MergeSums(w * (h - 1), Rect(p, x, y, w, h - 1), w, Row(p, x, y + h - 1, w));
    } else {
      assert Rect(p, x, y, w, 1) == Plus(ZERO, Row(p, x, y, w));
    }
  }

  lemma VarianceBounds(s: Sums)
    requires CauchySchwarz(64, s)
    ensures 0 <= Vars(s) && -Vars(s) <= 2 * Covar(s) <= Vars(s)
  {
    assert (s.s1 + s.s2) * (s.s1 + s.s2) == s.s1 * s.s1 + s.s2 * s.s2 + 2 * (s.s1 * s.s2);
    assert (s.s1 - s.s2) * (s.s1 - s.s2) == s.s1 * s.s1 + s.s2 * s.s2 - 2 * (s.s1 * s.s2);
  }

  /** Variances are non-negative and bound the covariance: what keeps the quotient in range. */
  lemma WindowVariance(p: Pictures, x: nat, y: nat)
    requires y >= 1
    ensures var s := Window(p, x, y);
            0 <= Vars(s) && -Vars(s) <= 2 * Covar(s) <= Vars(s)
  {
    hide Rect, CauchySchwarz, Vars, Covar;
    RectSquares(p, 4 * x, 4 * (y - 1), 8, 8);
    VarianceBounds(Window(p, x, y));
  }

  // ---------- The range of the index ----------

  /** Sums of n bytes from either picture, their squares and products. */
  ghost predicate Bounded(n: nat, s: Sums) {
    && 0 <= s.s1 <= 255 * n && 0 <= s.s2 <= 255 * n
    && 0 <= s.ss <= 130050 * n && 0 <= s.s12 <= 65025 * n
  }

  lemma PixelBounded(p: Pictures, x: nat, y: nat)
    ensures Bounded(1, Pixel(p, x, y))
  {
    var a, b := A(p, x, y) as int, B(p, x, y) as int;
    assert 0 <= a * a <= 255 * 255 && 0 <= b * b <= 255 * 255 && 0 <= a * b <= 255 * 255;
  }

  lemma {:induction false} RowBounded(p: Pictures, x: nat, y: nat, w: nat)
    ensures Bounded(w, Row(p, x, y, w))
  {
    hide Pixel;
    if w == 0 {
    } else {
      RowBounded(p, x, y, w - 1);
      PixelBounded(p, x + w - 1, y);
    }
  }

  lemma {:induction false} RectBounded(p: Pictures, x: nat, y: nat, w: nat, h: nat)
    ensures Bounded(w * h, Rect(p, x, y, w, h))
  {
    hide Row;
    if h == 0 {
    } else {
      RectBounded(p, x, y, w, h - 1);
      RowBounded(p, x, y + h - 1, w);
      assert w * h == w * (h - 1) + w;
    }
  }

  predicate FitsInt(v: int) { -0x8000_0000 <= v < 0x8000_0000 }

  /** Every intermediate value of the index of a window fits a 32-bit int. */
  lemma IntermediatesFit(p: Pictures, x: nat, y: nat)
    requires y >= 1
    ensures IntermediatesOf(Window(p, x, y))
  {
    hide Rect, IntermediatesOf, Vars, Covar;
    RectBounded(p, 4 * x, 4 * (y - 1), 8, 8);
    WindowVariance(p, x, y);
    SumsFit(Window(p, x, y));
  }

  /** Every integer that ssim_end1 computes, before the conversion to float. */
  ghost predicate IntermediatesOf(s: Sums) {
    && FitsInt(s.ss * 64) && FitsInt(s.s1 * s.s1) && FitsInt(s.s2 * s.s2) && FitsInt(s.ss * 64 - s.s1 * s.s1)
    && FitsInt(Vars(s)) && FitsInt(s.s12 * 64) && FitsInt(s.s1 * s.s2) && FitsInt(Covar(s))
    && FitsInt(2 * s.s1 * s.s2 + C1) && FitsInt(2 * Covar(s) + C2)
    && FitsInt(s.s1 * s.s1 + s.s2 * s.s2 + C1) && FitsInt(Vars(s) + C2)
  }

  lemma SumsFit(s: Sums)
    requires Bounded(64, s) && 0 <= Vars(s) && -Vars(s) <= 2 * Covar(s) <= Vars(s)
    ensures IntermediatesOf(s)
  {
    SquareBound(s.s1, s.s1, 16320);
    SquareBound(s.s2, s.s2, 16320);
    SquareBound(s.s1, s.s2, 16320);
    assert 2 * s.s1 * s.s2 == 2 * (s.s1 * s.s2);
  }

  lemma SquareBound(a: int, b: int, m: int)
    requires 0 <= a <= m && 0 <= b <= m
    ensures 0 <= a * b <= m * m
  {
    assert a * b <= m * b <= m * m;
  }

  /** A product of two fractions, the first in (0, 1], the second in (-1, 1]. */
  lemma FractionRange(l: int, d: int, c: int, e: int)
    requires 0 < l <= d && -e < c <= e && 0 < e
    ensures 0 < d * e && -(d * e) < l * c <= d * e
    ensures l * c == d * e <==> l == d && c == e
  {
    assert d * e > 0;
    if c >= 0 {
      assert l * c <= d * c <= d * e;
      assert d * e - l * c == (d - l) * c + d * (e - c);
      if c > 0 { assert l < d ==> (d - l) * c > 0; }
      assert c < e ==> d * (e - c) > 0;
    } else {
      assert l * (-c) <= d * (-c) < d * e;
      assert l * c == -(l * (-c));
      assert l * c < 0;
    }
  }

  /** The exact index of every window lies in (-1, 1]. */
  lemma IndexRange(p: Pictures, x: nat, y: nat)
    requires y >= 1
    ensures var s := Window(p, x, y);
            0 < Denominator(s) && -Denominator(s) < Numerator(s) <= Denominator(s) && -1.0 < Index(s) <= 1.0
  {
    var s := Window(p, x, y);
    WindowFactors(p, x, y);
    FractionRange(2 * s.s1 * s.s2 + C1, s.s1 * s.s1 + s.s2 * s.s2 + C1, 2 * Covar(s) + C2, Vars(s) + C2);
    Quotient(Numerator(s), Denominator(s));
  }

  lemma SumsFactors(s: Sums)
    requires 0 <= s.s1 && 0 <= s.s2
    ensures 0 < 2 * s.s1 * s.s2 + C1 <= s.s1 * s.s1 + s.s2 * s.s2 + C1
    ensures 2 * s.s1 * s.s2 == s.s1 * s.s1 + s.s2 * s.s2 <==> s.s1 == s.s2
  {
    var a, b := s.s1, s.s2;
    assert 0 <= a * b;
    SquareOfDifference(a, b);
    assert 2 * a * b == 2 * (a * b);
    if a != b { assert (a - b) * (a - b) > 0; }
  }

  lemma WindowFactors(p: Pictures, x: nat, y: nat)
    requires y >= 1
    ensures var s := Window(p, x, y);
            && 0 < 2 * s.s1 * s.s2 + C1 <= s.s1 * s.s1 + s.s2 * s.s2 + C1
            && (2 * s.s1 * s.s2 == s.s1 * s.s1 + s.s2 * s.s2 <==> s.s1 == s.s2)
            && -(Vars(s) + C2) < 2 * Covar(s) + C2 <= Vars(s) + C2
  {
    hide Rect, Vars, Covar;
    WindowVariance(p, x, y);
    RectBounded(p, 4 * x, 4 * (y - 1), 8, 8);
    SumsFactors(Window(p, x, y));
  }

  lemma RealQuotient(n: real, e: real)
    requires 0.0 < e && -e < n <= e
    ensures -1.0 < n / e <= 1.0
    ensures n / e == 1.0 <==> n == e
  {
    var q := n / e;
    assert q * e == n;
    assert e * (q - 1.0) == n - e;
    assert e * (q + 1.0) == n + e;
    SignOfFactor(e, q - 1.0);
    SignOfFactor(e, q + 1.0);
  }

  lemma Quotient(n: int, d: int)
    requires 0 < d && -d < n <= d
    ensures -1.0 < n as real / d as real <= 1.0
    ensures n as real / d as real == 1.0 <==> n == d
  {
    RealQuotient(n as real, d as real);
  }

  lemma SignOfFactor(e: real, v: real)
    requires e > 0.0
    ensures v > 0.0 <==> e * v > 0.0
    ensures v == 0.0 <==> e * v == 0.0
  {
  }

  // ---------- The index is 1 exactly for equal pictures ----------

  /** Both pictures show the same w by h pixels from (x, y) on. */
  ghost predicate SamePixels(p: Pictures, x: nat, y: nat, w: nat, h: nat) {
    forall j: nat :: y <= j < y + h ==> SameRow(p, x, j, w)
  }

  ghost predicate SameRow(p: Pictures, x: nat, y: nat, w: nat) {
    forall i: nat :: x <= i < x + w ==> A(p, i, y) == B(p, i, y)
  }

  /** The sum of the squared differences. */
  function Gap(s: Sums): int { s.ss - 2 * s.s12 }

  lemma DifferenceSquared(a: int, b: int)
    ensures 0 <= a * a + b * b - 2 * (a * b)
    ensures a * a + b * b - 2 * (a * b) == 0 <==> a == b
  {
    SquareOfDifference(a, b);
    if a != b { assert (a - b) * (a - b) > 0; }
  }

  lemma PixelGap(p: Pictures, x: nat, y: nat)
    ensures 0 <= Gap(Pixel(p, x, y))
    ensures Gap(Pixel(p, x, y)) == 0 <==> A(p, x, y) == B(p, x, y)
  {
    var a, b := A(p, x, y) as int, B(p, x, y) as int;
    hide A, B;
    DifferenceSquared(a, b);
  }

  lemma {:induction false} RowGap(p: Pictures, x: nat, y: nat, w: nat)
    ensures 0 <= Gap(Row(p, x, y, w))
    ensures Gap(Row(p, x, y, w)) == 0 <==> SameRow(p, x, y, w)
  {
    if w == 0 {
    } else {
      hide Pixel, A, B;
      RowGap(p, x, y, w - 1);
      PixelGap(p, x + w - 1, y);
    }
  }

  lemma {:induction false} RectGap(p: Pictures, x: nat, y: nat, w: nat, h: nat)
    ensures 0 <= Gap(Rect(p, x, y, w, h))
    ensures Gap(Rect(p, x, y, w, h)) == 0 <==> SamePixels(p, x, y, w, h)
  {
    if h == 0 {
    } else {
      hide Row, SameRow;
      RectGap(p, x, y, w, h - 1);
      RowGap(p, x, y + h - 1, w);
    }
  }

  lemma EqualFactors(s: Sums)
    ensures Gap(s) == 0 && 0 <= Vars(s) && 2 * Covar(s) <= Vars(s) ==> s.s1 == s.s2
    ensures s.s1 == s.s2 ==> (2 * Covar(s) == Vars(s) <==> Gap(s) == 0)
  {
    SquareOfDifference(s.s1, s.s2);
    if s.s1 != s.s2 { assert (s.s1 - s.s2) * (s.s1 - s.s2) > 0; }
  }

  /** The index of a window is in (-1, 1], and 1 only where the pictures agree. */
  function WindowIndex(p: Pictures, x: nat, y: nat): (r: real)
    requires y >= 1
    ensures -1.0 < r <= 1.0
    ensures r == 1.0 <==> SamePixels(p, 4 * x, 4 * (y - 1), 8, 8)
  {
    IndexRange(p, x, y);
    IndexIsOne(p, x, y);
    Index(Window(p, x, y))
  }

  lemma IndexIsOne(p: Pictures, x: nat, y: nat)
    requires y >= 1
    ensures var s := Window(p, x, y);
            Denominator(s) != 0 && (Index(s) == 1.0 <==> SamePixels(p, 4 * x, 4 * (y - 1), 8, 8))
  {
    hide Rect, Vars, Covar, SamePixels;
    var s := Window(p, x, y);
    IndexRange(p, x, y);
    WindowFactors(p, x, y);
    WindowVariance(p, x, y);
    FractionRange(2 * s.s1 * s.s2 + C1, s.s1 * s.s1 + s.s2 * s.s2 + C1, 2 * Covar(s) + C2, Vars(s) + C2);
    Quotient(Numerator(s), Denominator(s));
    RectGap(p, 4 * x, 4 * (y - 1), 8, 8);
    EqualFactors(s);
  }

  /** How many windows of two blocks a row of n blocks has. */
  function Windows(n: nat): nat { if n == 0 then 0 else n - 1 }

  /** The indices of the first n windows of a row of windows. */
  function RowIndex(p: Pictures, y: nat, n: nat): real
    requires y >= 1
  {
    if n == 0 then 0.0 else RowIndex(p, y, n - 1) + WindowIndex(p, n - 1, y)
  }

  /** The indices of all windows of a picture of w by h blocks, each counted once. */
  function TotalIndex(p: Pictures, w: nat, h: nat): real
  {
    if h <= 1 then 0.0 else TotalIndex(p, w, h - 1) + RowIndex(p, h - 1, Windows(w))
  }

  // ---------- The rolling buffer ----------

  /** Pictures seen from k1 and k2 bytes further on. */
  function Advanced(p: Pictures, k1: nat, k2: nat): Pictures
    requires k1 <= |p.pix1| && k2 <= |p.pix2|
  {
    p.(pix1 := p.pix1[k1..], pix2 := p.pix2[k2..])
  }

  lemma {:induction false} AdvancedRow(p: Pictures, x: nat, y: nat, u: nat, v: nat, w: nat, q: Pictures)
    requires x + y * p.stride1 <= |p.pix1| && x + y * p.stride2 <= |p.pix2|
    requires q == Advanced(p, x + y * p.stride1, x + y * p.stride2)
    ensures Row(q, u, v, w) == Row(p, x + u, y + v, w)
  {
    if w == 0 {
    } else {
      AdvancedRow(p, x, y, u, v, w - 1, q);
      AdvancedPixel(p, x, y, u + w - 1, v, q);
      hide Pixel;
      assert x + (u + w - 1) == x + u + w - 1;
    }
  }

  lemma AdvancedPixel(p: Pictures, x: nat, y: nat, u: nat, v: nat, q: Pictures)
    requires x + y * p.stride1 <= |p.pix1| && x + y * p.stride2 <= |p.pix2|
    requires q == Advanced(p, x + y * p.stride1, x + y * p.stride2)
    ensures Pixel(q, u, v) == Pixel(p, x + u, y + v)
  {
    assert (y + v) * p.stride1 == y * p.stride1 + v * p.stride1;
    assert (y + v) * p.stride2 == y * p.stride2 + v * p.stride2;
  }

  lemma {:induction false} AdvancedRect(p: Pictures, x: nat, y: nat, u: nat, w: nat, h: nat, q: Pictures)
    requires x + y * p.stride1 <= |p.pix1| && x + y * p.stride2 <= |p.pix2|
    requires q == Advanced(p, x + y * p.stride1, x + y * p.stride2)
    ensures Rect(q, u, 0, w, h) == Rect(p, x + u, y, w, h)
  {
    hide Row;
    if h == 0 {
    } else {
      AdvancedRect(p, x, y, u, w, h - 1, q);
      AdvancedRow(p, x, y, u, h - 1, w, q);
    }
  }

  lemma AddRow(p: Pictures, y: nat)
    ensures Plus(Rect(p, 0, 0, 4, y), Row(p, 0, y, 0)) == Rect(p, 0, 0, 4, y)
    ensures Plus(Rect(p, 0, 0, 4, y), Row(p, 0, y, 4)) == Rect(p, 0, 0, 4, y + 1)
  {
  }

  lemma AddPixelToRow(p: Pictures, x: nat, y: nat, r: Sums)
    ensures Plus(Plus(r, Row(p, 0, y, x)), Pixel(p, x, y)) == Plus(r, Row(p, 0, y, x + 1))
  {
    hide Pixel;
  }

  lemma ReadInReach(pix: seq<byte>, stride: nat, x: nat, y: nat)
    requires 4 + 3 * stride <= |pix| && x < 4 && y < 4
    ensures x + y * stride < |pix| && PixelAt(pix, x + y * stride) == pix[x + y * stride]
  {
    assert 3 * stride - y * stride == (3 - y) * stride;
  }

  /** Adds one pixel of either picture to the sums. */
  method AddPixel(p: Pictures, x: nat, y: nat, s: Sums) returns (t: Sums)
    requires 4 + 3 * p.stride1 <= |p.pix1| && 4 + 3 * p.stride2 <= |p.pix2| && x < 4 && y < 4
    ensures t == Plus(s, Pixel(p, x, y))
  {
    ReadInReach(p.pix1, p.stride1, x, y);
    ReadInReach(p.pix2, p.stride2, x, y);
    var a, b := p.pix1[x + y * p.stride1] as int, p.pix2[x + y * p.stride2] as int;
    var ss := s.ss + a * a;
    ss := ss + b * b;
    t := Sums(s.s1 + a, s.s2 + b, ss, s.s12 + a * b);
  }

  /** The sums of one 4x4 block at the start of both pictures. */
  method BlockSums(p: Pictures) returns (s: Sums)
    requires 4 + 3 * p.stride1 <= |p.pix1| && 4 + 3 * p.stride2 <= |p.pix2|
    ensures s == Rect(p, 0, 0, 4, 4)
  {
    assert Rect(p, 0, 0, 4, 0) == ZERO;
    hide Rect, Row, Plus;
    s := ZERO;
    for y := 0 to 4
      invariant s == Rect(p, 0, 0, 4, y)
    {
      AddRow(p, y);
      for x := 0 to 4
        invariant s == Plus(Rect(p, 0, 0, 4, y), Row(p, 0, y, x))
      {
        AddPixelToRow(p, x, y, Rect(p, 0, 0, 4, y));
        s := AddPixel(p, x, y, s);
      }
    }
  }

  /** Writes the sums of two adjacent blocks. */
  method Core4x4x2(p: Pictures, sums: array<Sums>, at: nat)
    requires 8 + 3 * p.stride1 <= |p.pix1| && 8 + 3 * p.stride2 <= |p.pix2| && at + 2 <= sums.Length
    modifies sums
    ensures sums[..] == old(sums[..])[at := Rect(p, 0, 0, 4, 4)][at + 1 := Rect(p, 4, 0, 4, 4)]
  {
    hide Rect;
    var q := p;
    for z := 0 to 2
      invariant q == Advanced(p, 4 * z, 4 * z)
      invariant z == 0 ==> sums[..] == old(sums[..])
      invariant z == 1 ==> sums[..] == old(sums[..])[at := Rect(p, 0, 0, 4, 4)]
      invariant z == 2 ==> sums[..] == old(sums[..])[at := Rect(p, 0, 0, 4, 4)][at + 1 := Rect(p, 4, 0, 4, 4)]
    {
      var s := BlockSums(q);
      AdvancedRect(p, 4 * z, 0, 0, 4, 4, q);
      sums[at + z] := s;
      q := Advanced(q, 4, 4);
    }
  }

  function Even(w: nat): nat { w + w % 2 }

  /** All pixels that are read of a picture of w by h blocks are there; an odd w is read one block further. */
  ghost predicate Readable(p: Pictures, w: nat, h: nat) {
    w >= 1 && h >= 2 ==>
      && 4 * Even(w) + (4 * h - 1) * p.stride1 <= |p.pix1|
      && 4 * Even(w) + (4 * h - 1) * p.stride2 <= |p.pix2|
  }

  ghost predicate HoldsRow(sums: seq<Sums>, p: Pictures, n: nat, z: nat) {
    n <= |sums| && forall x: nat :: x < n ==> sums[x] == Block(p, x, z)
  }

  /** Where block (x, z) starts. */
  function Offset(x: nat, z: nat, stride: nat): nat { 4 * (x + z * stride) }

  lemma BlocksInReach(p: Pictures, w: nat, h: nat, x: nat, z: nat)
    requires Readable(p, w, h) && z < h && 2 <= h && x + 2 <= Even(w)
    ensures Offset(x, z, p.stride1) + 8 + 3 * p.stride1 <= |p.pix1|
    ensures Offset(x, z, p.stride2) + 8 + 3 * p.stride2 <= |p.pix2|
  {
    RowsInReach(p.stride1, z, h);
    RowsInReach(p.stride2, z, h);
  }

  lemma RowsInReach(stride: nat, z: nat, h: nat)
    requires z < h
    ensures 4 * (z * stride) + 3 * stride <= (4 * h - 1) * stride
  {
    MoreRows(stride, z + 1, h);
    FourRows(stride, h);
    FourRows(stride, z + 1);
    assert (z + 1) * stride == z * stride + stride;
  }

  lemma MoreRows(stride: nat, z: nat, h: nat)
    requires z <= h
    ensures z * stride <= h * stride
  {
  }

  lemma FourRows(stride: nat, h: nat)
    requires h >= 1
    ensures (4 * h - 1) * stride == 4 * (h * stride) - stride
  {
  }

  /** Fills one row of block sums, two blocks at a time. */
  method FillRow(p: Pictures, w: nat, ghost h: nat, z: nat, sums: array<Sums>)
    requires Readable(p, w, h) && z < h && 2 <= h && w + 1 <= sums.Length
    modifies sums
    ensures HoldsRow(sums[..], p, w, z)
  {
    hide Offset, Readable, Block;
    var x := 0;
    while x < w
      invariant x % 2 == 0 && x <= Even(w) && HoldsRow(sums[..], p, x, z)
    {
      BlocksInReach(p, w, h, x, z);
      var q := Advanced(p, Offset(x, z, p.stride1), Offset(x, z, p.stride2));
      Core4x4x2(q, sums, x);
      BlockPair(p, x, z, q);
      x := x + 2;
    }
  }

  lemma BlockOffset(x: nat, z: nat, stride: nat)
    ensures 4 * (x + z * stride) == 4 * x + (4 * z) * stride
  {
  }

  lemma BlockPair(p: Pictures, x: nat, z: nat, q: Pictures)
    requires Offset(x, z, p.stride1) <= |p.pix1| && Offset(x, z, p.stride2) <= |p.pix2|
    requires q == Advanced(p, Offset(x, z, p.stride1), Offset(x, z, p.stride2))
    ensures Rect(q, 0, 0, 4, 4) == Block(p, x, z) && Rect(q, 4, 0, 4, 4) == Block(p, x + 1, z)
  {
    hide Rect;
    BlockOffset(x, z, p.stride1);
    BlockOffset(x, z, p.stride2);
    AdvancedRect(p, 4 * x, 4 * z, 0, 4, 4, q);
    AdvancedRect(p, 4 * x, 4 * z, 4, 4, 4, q);
    assert 4 * x + 4 == 4 * (x + 1);
  }

  /** The four blocks around position i of two rows of block sums. */
  function Four(sum0: seq<Sums>, sum1: seq<Sums>, i: nat): Sums
    requires i + 1 < |sum0| && i + 1 < |sum1|
  {
    Plus(Plus(Plus(sum0[i], sum0[i + 1]), sum1[i]), sum1[i + 1])
  }

  /** The index of up to four windows whose lower halves are in sum0, upper halves in sum1. */
  method SsimEnd4(sum0: array<Sums>, sum1: array<Sums>, at: nat, width: nat, ghost p: Pictures,
      ghost y: nat) returns (ssim: real)
    requires y >= 1 && HoldsRow(sum0[..], p, at + width + 1, y) && HoldsRow(sum1[..], p, at + width + 1, y - 1)
    ensures ssim == RowIndex(p, y, at + width) - RowIndex(p, y, at)
  {
    hide WindowIndex, Block;
    ssim := 0.0;
    for i := 0 to width
      invariant ssim == RowIndex(p, y, at + i) - RowIndex(p, y, at)
    {
      WindowOf(sum0[..], sum1[..], at + i, p, y);
      ssim := ssim + Index(Four(sum0[..], sum1[..], at + i));
    }
  }

  lemma WindowOf(sum0: seq<Sums>, sum1: seq<Sums>, i: nat, p: Pictures, y: nat)
    requires y >= 1 && i + 1 < |sum0| && i + 1 < |sum1|
    requires sum0[i] == Block(p, i, y) && sum0[i + 1] == Block(p, i + 1, y)
    requires sum1[i] == Block(p, i, y - 1) && sum1[i + 1] == Block(p, i + 1, y - 1)
    ensures Denominator(Four(sum0, sum1, i)) != 0 && Index(Four(sum0, sum1, i)) == WindowIndex(p, i, y)
  {
    hide Rect;
    WindowIsFourBlocks(p, i, y);
    IndexRange(p, i, y);
  }

  /** Adds up one row of windows, in groups of at most four. */
  method SumRow(sum0: array<Sums>, sum1: array<Sums>, w: nat, ghost p: Pictures, ghost y: nat) returns (ssim: real)
    requires y >= 1 && HoldsRow(sum0[..], p, w, y) && HoldsRow(sum1[..], p, w, y - 1)
    ensures ssim == RowIndex(p, y, Windows(w))
  {
    hide RowIndex, Block;
    RowIndexStarts(p, y);
    ssim := 0.0;
    var x := 0;
    while x < w - 1
      invariant ssim == RowIndex(p, y, if x < Windows(w) then x else Windows(w))
    {
      var n := if 4 < w - x - 1 then 4 else w - x - 1;
      var group := SsimEnd4(sum0, sum1, x, n, p, y);
      ssim := ssim + group;
      x := x + 4;
    }
  }

  lemma RowIndexStarts(p: Pictures, y: nat)
    requires y >= 1
    ensures RowIndex(p, y, 0) == 0.0
  {
  }

  // ---------- The mean over a picture ----------

  /** Not a number stands for 0 divided by 0, where there are no windows. */
  datatype Similarity = Mean(value: real) | NotANumber

  /** The mean index over the (w - 1)(h - 1) windows of a picture of w by h blocks. */
  function Similar(p: Pictures, w: nat, h: nat): Similarity {
    if w == 1 || h == 1 then NotANumber else Mean(TotalIndex(p, w, h) / Product(w - 1, h - 1) as real)
  }

  function Product(a: int, b: int): (r: int)
    ensures r == 0 <==> a == 0 || b == 0
  {
    a * b
  }

  /** Brings sum0 to block row y and sum1 to block row y - 1, swapping before each refill. */
  method Roll(p: Pictures, w: nat, ghost h: nat, y: nat, first: nat, a: array<Sums>, b: array<Sums>)
    returns (z: nat, sum0: array<Sums>, sum1: array<Sums>)
    requires Readable(p, w, h) && 1 <= y < h && a != b && a.Length == b.Length == w + 3
    requires (y == 1 && first == 0) || (first == y && HoldsRow(a[..], p, w, y - 1))
    modifies a, b
    ensures z == y + 1 && ((sum0 == a && sum1 == b) || (sum0 == b && sum1 == a))
    ensures HoldsRow(sum0[..], p, w, y) && HoldsRow(sum1[..], p, w, y - 1)
  {
    hide HoldsRow, Readable;
    z, sum0, sum1 := first, a, b;
    while z <= y
      invariant z <= y + 1 && (y == 1 || y <= z)
      invariant (sum0 == a && sum1 == b) || (sum0 == b && sum1 == a)
      invariant z >= 1 ==> HoldsRow(sum0[..], p, w, z - 1)
      invariant z == y + 1 ==> HoldsRow(sum1[..], p, w, y - 1)
    {
      sum0, sum1 := sum1, sum0;
      FillRow(p, w, h, z, sum0);
      z := z + 1;
    }
  }

  /** Two row buffers, swapped before each refill, serve every window of the picture exactly once. */
  method PixelSsimWxh(p: Pictures, width: nat, height: nat) returns (ssim: Similarity)
    requires Readable(p, width / 4, height / 4)
    ensures ssim == Similar(p, width / 4, height / 4)
  {
    hide HoldsRow, Readable, RowIndex;
    var sum0, sum1 := new Sums[width / 4 + 3], new Sums[width / 4 + 3];
    var w, h := width / 4, height / 4;
    var total := 0.0;
    var z, y := 0, 1;
    while y < h
      invariant 1 <= y && (y <= h || y == 1)
      invariant sum0 != sum1 && fresh(sum0) && fresh(sum1) && sum0.Length == sum1.Length == w + 3
      invariant (y == 1 && z == 0) || (z == y && HoldsRow(sum0[..], p, w, y - 1))
      invariant total == TotalIndex(p, w, y)
    {
      z, sum0, sum1 := Roll(p, w, h, y, z, sum0, sum1);
      var row := SumRow(sum0, sum1, w, p, y);
      total := total + row;
      y := y + 1;
    }
    ssim := if Product(w - 1, h - 1) == 0 then NotANumber else Mean(total / Product(w - 1, h - 1) as real);
  }

  /** Where the source divides by 0 there is nothing to average, so the quotient is 0 / 0. */
  lemma {:induction false} NoWindows(p: Pictures, w: nat, h: nat)
    requires w <= 1 || h <= 1
    ensures TotalIndex(p, w, h) == 0.0
  {
    hide WindowIndex;
    if h <= 1 {
    } else {
      NoWindows(p, w, h - 1);
    }
  }

  lemma SameRowJoins(p: Pictures, x: nat, y: nat, k: nat, w: nat, v: nat, u: nat)
    requires k <= w <= u == k + v
    ensures SameRow(p, x, y, u) <==> SameRow(p, x, y, w) && SameRow(p, x + k, y, v)
  {
    hide A, B;
  }

  lemma SamePixelsJoinAcross(p: Pictures, x: nat, y: nat, k: nat, w: nat, v: nat, u: nat, h: nat)
    requires k <= w <= u == k + v
    ensures SamePixels(p, x, y, u, h) <==> SamePixels(p, x, y, w, h) && SamePixels(p, x + k, y, v, h)
  {
    hide SameRow;
    var z := x + k;
    forall j: nat ensures SameRow(p, x, j, u) <==> SameRow(p, x, j, w) && SameRow(p, z, j, v) {
      SameRowJoins(p, x, j, k, w, v, u);
    }
    if SamePixels(p, x, y, u, h) {
      forall j: nat | y <= j < y + h ensures SameRow(p, x, j, w) && SameRow(p, z, j, v) {
        assert SameRow(p, x, j, u);
      }
    }
    if SamePixels(p, x, y, w, h) && SamePixels(p, z, y, v, h) {
      forall j: nat | y <= j < y + h ensures SameRow(p, x, j, u) {
        assert SameRow(p, x, j, w) && SameRow(p, z, j, v);
      }
    }
  }

  lemma SamePixelsJoinDown(p: Pictures, x: nat, y: nat, w: nat, k: nat, g: nat, h: nat)
    requires k <= g <= k + h
    ensures SamePixels(p, x, y, w, k + h) <==> SamePixels(p, x, y, w, g) && SamePixels(p, x, y + k, w, h)
  {
    hide SameRow;
  }

  lemma {:induction false} RowIndexRange(p: Pictures, y: nat, n: nat)
    requires y >= 1 && n >= 1
    ensures -(n as real) < RowIndex(p, y, n) <= n as real
    ensures RowIndex(p, y, n) == n as real <==> SamePixels(p, 0, 4 * (y - 1), 4 * n + 4, 8)
  {
    hide SamePixels;
    var first := WindowIndex(p, n - 1, y);
    if n == 1 {
      assert RowIndex(p, y, 0) == 0.0;
    } else {
      RowIndexRange(p, y, n - 1);
      SamePixelsJoinAcross(p, 0, 4 * (y - 1), 4 * n - 4, 4 * n, 8, 4 * n + 4, 8);
    }
  }

  lemma {:induction false} TotalIndexRange(p: Pictures, w: nat, h: nat)
    requires w >= 2 && h >= 2
    ensures -(Product(w - 1, h - 1) as real) < TotalIndex(p, w, h) <= Product(w - 1, h - 1) as real
    ensures TotalIndex(p, w, h) == Product(w - 1, h - 1) as real <==> SamePixels(p, 0, 0, 4 * w, 4 * h)
  {
    hide SamePixels, RowIndex;
    RowIndexRange(p, h - 1, w - 1);
    if h == 2 {
      assert TotalIndex(p, w, 1) == 0.0;
    } else {
      TotalIndexRange(p, w, h - 1);
      assert Product(w - 1, h - 1) == Product(w - 1, h - 2) + (w - 1);
      SamePixelsJoinDown(p, 0, 0, 4 * w, 4 * h - 8, 4 * h - 4, 8);
    }
  }

  /** The similarity of two pictures is in (-1, 1], and 1 exactly when they agree on every pixel compared. */
  lemma SimilarityRange(p: Pictures, w: nat, h: nat)
    requires w >= 2 && h >= 2
    ensures Similar(p, w, h).Mean? && -1.0 < Similar(p, w, h).value <= 1.0
    ensures Similar(p, w, h).value == 1.0 <==> SamePixels(p, 0, 0, 4 * w, 4 * h)
  {
    hide SamePixels, TotalIndex;
    TotalIndexRange(p, w, h);
    assert Product(w - 1, h - 1) > 0;
    RealQuotient(TotalIndex(p, w, h), Product(w - 1, h - 1) as real);
  }

  // ---------- The order of the pictures does not matter ----------

  function Swapped(p: Pictures): Pictures { Pictures(p.pix2, p.stride2, p.pix1, p.stride1) }

  function Exchanged(s: Sums): Sums { Sums(s.s2, s.s1, s.ss, s.s12) }

  lemma {:induction false} RowSwapped(p: Pictures, x: nat, y: nat, w: nat)
    ensures Row(Swapped(p), x, y, w) == Exchanged(Row(p, x, y, w))
  {
    if w == 0 {
    } else {
      RowSwapped(p, x, y, w - 1);
      PixelSwapped(p, x + w - 1, y);
      hide Pixel;
    }
  }

  lemma PixelSwapped(p: Pictures, x: nat, y: nat)
    ensures Pixel(Swapped(p), x, y) == Exchanged(Pixel(p, x, y))
  {
    assert A(Swapped(p), x, y) == B(p, x, y) && B(Swapped(p), x, y) == A(p, x, y);
    hide A, B;
    var a, b := A(p, x, y) as int, B(p, x, y) as int;
    assert a * b == b * a;
  }

  lemma {:induction false} RectSwapped(p: Pictures, x: nat, y: nat, w: nat, h: nat)
    ensures Rect(Swapped(p), x, y, w, h) == Exchanged(Rect(p, x, y, w, h))
  {
    hide Row;
    if h == 0 {
    } else {
      RectSwapped(p, x, y, w, h - 1);
      RowSwapped(p, x, y + h - 1, w);
    }
  }

  lemma FactorsExchanged(s: Sums)
    ensures Numerator(Exchanged(s)) == Numerator(s) && Denominator(Exchanged(s)) == Denominator(s)
  {
    assert s.s1 * s.s2 == s.s2 * s.s1;
    assert 2 * s.s1 * s.s2 == 2 * (s.s1 * s.s2) && 2 * s.s2 * s.s1 == 2 * (s.s2 * s.s1);
  }

  lemma WindowSwapped(p: Pictures, x: nat, y: nat)
    requires y >= 1
    ensures WindowIndex(Swapped(p), x, y) == WindowIndex(p, x, y)
  {
    hide Rect, Numerator, Denominator;
    RectSwapped(p, 4 * x, 4 * (y - 1), 8, 8);
    FactorsExchanged(Window(p, x, y));
  }

  lemma {:induction false} RowIndexSwapped(p: Pictures, y: nat, n: nat)
    requires y >= 1
    ensures RowIndex(Swapped(p), y, n) == RowIndex(p, y, n)
  {
    hide WindowIndex;
    if n == 0 {
    } else {
      RowIndexSwapped(p, y, n - 1);
      WindowSwapped(p, n - 1, y);
    }
  }

  lemma {:induction false} TotalIndexSwapped(p: Pictures, w: nat, h: nat)
    ensures TotalIndex(Swapped(p), w, h) == TotalIndex(p, w, h)
  {
    hide RowIndex;
    if h <= 1 {
    } else {
      TotalIndexSwapped(p, w, h - 1);
      RowIndexSwapped(p, h - 1, Windows(w));
    }
  }

  /** Similarity is symmetric. */
  lemma SimilarityIsSymmetric(p: Pictures, w: nat, h: nat)
    ensures Similar(Swapped(p), w, h) == Similar(p, w, h)
  {
    TotalIndexSwapped(p, w, h);
  }

  // ---------- What is read ----------

  /** The core, called for block columns x and x + 1 of block row z, reads byte i of a picture of w by h blocks. */
  ghost predicate ReadAt(w: nat, h: nat, stride: nat, i: nat, x: nat, z: nat, u: nat, v: nat) {
    x < w && x % 2 == 0 && z < h && u < 8 && v < 4 && i == Offset(x, z, stride) + u + v * stride
  }

  ghost predicate IsRead(w: nat, h: nat, stride: nat, i: nat) {
    h >= 2 && exists x: nat, z: nat, u: nat, v: nat :: ReadAt(w, h, stride, i, x, z, u, v)
  }

  /** The last byte read: for an odd w, the last one of a block beyond the width. */
  function LastRead(w: nat, h: nat, stride: nat): nat
    requires w >= 1 && h >= 1
  {
    4 * Even(w) - 1 + (4 * h - 1) * stride
  }

  lemma LastIsRead(w: nat, h: nat, stride: nat)
    requires w >= 1 && h >= 2
    ensures IsRead(w, h, stride, LastRead(w, h, stride))
  {
    var x, z := Even(w) - 2, h - 1;
    FourRows(stride, h);
    MultipleOfStride(h, stride);
    assert ReadAt(w, h, stride, LastRead(w, h, stride), x, z, 7, 3);
  }

  lemma MultipleOfStride(h: nat, stride: nat)
    requires h >= 1
    ensures h * stride == (h - 1) * stride + stride
  {
  }

  lemma ReadsEndThere(w: nat, h: nat, stride: nat, i: nat)
    requires IsRead(w, h, stride, i)
    ensures w >= 1 && i <= LastRead(w, h, stride)
  {
    var x: nat, z: nat, u: nat, v: nat :| ReadAt(w, h, stride, i, x, z, u, v);
    RowsInReach(stride, z, h);
    MoreRows(stride, v, 3);
    ReadBound(x, z * stride, u, v * stride, stride, (4 * h - 1) * stride, w);
  }

  lemma ReadBound(x: nat, rows: nat, u: nat, row: nat, stride: nat, all: nat, w: nat)
    requires x < w && x % 2 == 0 && u < 8 && row <= 3 * stride && 4 * rows + 3 * stride <= all
    ensures 4 * (x + rows) + u + row <= 4 * Even(w) - 1 + all
  {
  }

  /** The requirement on callers is exact: every byte that is read is there. */
  lemma ReadableExactly(p: Pictures, w: nat, h: nat)
    ensures Readable(p, w, h) <==>
              && (forall i: nat :: IsRead(w, h, p.stride1, i) ==> i < |p.pix1|)
              && (forall i: nat :: IsRead(w, h, p.stride2, i) ==> i < |p.pix2|)
  {
    hide LastRead, IsRead, Even;
    if w >= 1 && h >= 2 {
      LastIsRead(w, h, p.stride1);
      LastIsRead(w, h, p.stride2);
      LastReadIs(p, w, h);
    }
    forall i: nat | Readable(p, w, h)
      ensures IsRead(w, h, p.stride1, i) ==> i < |p.pix1|
      ensures IsRead(w, h, p.stride2, i) ==> i < |p.pix2|
    {
      if IsRead(w, h, p.stride1, i) {
        ReadsNeedBlocks(w, h, p.stride1, i);
        ReadsEndThere(w, h, p.stride1, i);
        LastReadIs(p, w, h);
      }
      if IsRead(w, h, p.stride2, i) {
        ReadsNeedBlocks(w, h, p.stride2, i);
        ReadsEndThere(w, h, p.stride2, i);
        LastReadIs(p, w, h);
      }
    }
  }

  lemma ReadsNeedBlocks(w: nat, h: nat, stride: nat, i: nat)
    requires IsRead(w, h, stride, i)
    ensures w >= 1 && h >= 2
  {
  }

  lemma LastReadIs(p: Pictures, w: nat, h: nat)
    requires w >= 1 && h >= 2
    ensures Readable(p, w, h) <==>
              LastRead(w, h, p.stride1) < |p.pix1| && LastRead(w, h, p.stride2) < |p.pix2|
  {
  }

  /** Of pictures without a margin, those with an odd number of blocks in a row are read beyond their end. */
  lemma TightExactly(p: Pictures, w: nat, h: nat)
    requires w >= 1 && h >= 2 && p.stride1 == p.stride2 == 4 * w
    requires |p.pix1| == |p.pix2| == 16 * (w * h)
    ensures Readable(p, w, h) <==> w % 2 == 0
  {
    FourRows(4 * w, h);
    Sixteen(w, h);
  }

  lemma Sixteen(w: nat, h: nat)
    ensures 4 * (h * (4 * w)) == 16 * (w * h)
  {
  }

  // ---------- What the result depends on ----------

  /** Two pairs of pictures that show the same in w by h pixels. */
  ghost predicate Alike(p: Pictures, q: Pictures, w: nat, h: nat) {
    forall x: nat, y: nat :: x < w && y < h ==> Pixel(p, x, y) == Pixel(q, x, y)
  }

  lemma {:induction false} RowAlike(p: Pictures, q: Pictures, x: nat, y: nat, n: nat, w: nat, h: nat)
    requires Alike(p, q, w, h) && x + n <= w && y < h
    ensures Row(p, x, y, n) == Row(q, x, y, n)
  {
    hide Pixel;
    if n == 0 {
    } else {
      RowAlike(p, q, x, y, n - 1, w, h);
    }
  }

  lemma {:induction false} RectAlike(p: Pictures, q: Pictures, x: nat, y: nat, n: nat, m: nat, w: nat, h: nat)
    requires Alike(p, q, w, h) && x + n <= w && y + m <= h
    ensures Rect(p, x, y, n, m) == Rect(q, x, y, n, m)
  {
    hide Row, Alike;
    if m == 0 {
    } else {
      RectAlike(p, q, x, y, n, m - 1, w, h);
      RowAlike(p, q, x, y + m - 1, n, w, h);
    }
  }

  lemma {:induction false} RowIndexAlike(p: Pictures, q: Pictures, y: nat, n: nat, w: nat, h: nat)
    requires Alike(p, q, 4 * w, 4 * h) && 1 <= y < h && n <= Windows(w)
    ensures RowIndex(p, y, n) == RowIndex(q, y, n)
  {
    hide Rect, Alike;
    if n == 0 {
    } else {
      RowIndexAlike(p, q, y, n - 1, w, h);
      RectAlike(p, q, 4 * (n - 1), 4 * (y - 1), 8, 8, 4 * w, 4 * h);
      assert Window(p, n - 1, y) == Window(q, n - 1, y);
    }
  }

  lemma {:induction false} TotalIndexAlike(p: Pictures, q: Pictures, w: nat, g: nat, h: nat)
    requires Alike(p, q, 4 * w, 4 * h) && g <= h
    ensures TotalIndex(p, w, g) == TotalIndex(q, w, g)
  {
    hide RowIndex, Alike;
    if g <= 1 {
    } else {
      TotalIndexAlike(p, q, w, g - 1, h);
      RowIndexAlike(p, q, g - 1, Windows(w), w, h);
    }
  }

  /** The bytes read beyond the width do not matter: the result is that of the w by h blocks alone. */
  lemma SimilarityOfAlike(p: Pictures, q: Pictures, w: nat, h: nat)
    requires Alike(p, q, 4 * w, 4 * h)
    ensures Similar(p, w, h) == Similar(q, w, h)
  {
    TotalIndexAlike(p, q, w, h, h);
  }
}
