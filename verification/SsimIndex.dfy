/** What the similarity index of a window is, over its 64 pairs of pixels and in the numbers of tools/psnr.c. */
module SsimIndexes {
  import opened Ssim

  /** The constants are rounded to the nearest integer. */
  lemma ConstantsAreRounded()
    ensures C1 as real <= 0.01 * 0.01 * 255.0 * 255.0 * 64.0 + 0.5 < C1 as real + 1.0
    ensures C2 as real <= 0.03 * 0.03 * 255.0 * 255.0 * 64.0 * 63.0 + 0.5 < C2 as real + 1.0
  {
  }

  // ---------- Sums over pairs ----------

  function Total(a: seq<int>): int {
    if a == [] then 0 else Total(a[..|a| - 1]) + a[|a| - 1]
  }

  function Dot(a: seq<int>, b: seq<int>): int
    requires |a| == |b|
  {
    if a == [] then 0 else Dot(a[..|a| - 1], b[..|b| - 1]) + a[|a| - 1] * b[|b| - 1]
  }

  /** The products of the differences of u and v to every element. */
  function Against(u: int, v: int, a: seq<int>, b: seq<int>): int
    requires |a| == |b|
  {
    if a == [] then 0
    else Against(u, v, a[..|a| - 1], b[..|b| - 1]) + (u - a[|a| - 1]) * (v - b[|b| - 1])
  }

  /** The same for every element of two other lists. */
  function AgainstAll(us: seq<int>, vs: seq<int>, a: seq<int>, b: seq<int>): int
    requires |us| == |vs| && |a| == |b|
  {
    if us == [] then 0
    else AgainstAll(us[..|us| - 1], vs[..|vs| - 1], a, b) + Against(us[|us| - 1], vs[|vs| - 1], a, b)
  }

  /** The sum of (a_i - a_j)(b_i - b_j) over all i and j. */
  function Pairs(a: seq<int>, b: seq<int>): int
    requires |a| == |b|
  {
    AgainstAll(a, b, a, b)
  }

  lemma {:induction false} AgainstIs(u: int, v: int, a: seq<int>, b: seq<int>)
    requires |a| == |b|
    ensures Against(u, v, a, b) == |a| * (u * v) - u * Total(b) - v * Total(a) + Dot(a, b)
    decreases |a|
  {
    if a == [] {
    } else {
      var n := |a| - 1;
      AgainstIs(u, v, a[..n], b[..n]);
      LastOf(a, b);
      LastOf(b, a);
      hide Total, Dot;
      OneMore(u, v, a[n], b[n], Total(a[..n]), Total(b[..n]), n);
    }
  }

  lemma {:induction false} AgainstAllIs(us: seq<int>, vs: seq<int>, a: seq<int>, b: seq<int>)
    requires |us| == |vs| && |a| == |b|
    ensures AgainstAll(us, vs, a, b)
            == |a| * Dot(us, vs) - Total(us) * Total(b) - Total(vs) * Total(a) + |us| * Dot(a, b)
    decreases |us|
  {
    hide Against;
    if us == [] {
    } else {
      var n := |us| - 1;
      var u, v := us[n], vs[n];
      AgainstAllIs(us[..n], vs[..n], a, b);
      AgainstIs(u, v, a, b);
      LastOf(us, vs);
      LastOf(vs, us);
      hide Total, Dot;
      Regroup(|a|, Dot(us[..n], vs[..n]), u * v, Total(us[..n]), u, Total(b), Total(vs[..n]), v, Total(a), n,
              Dot(a, b));
    }
  }

  lemma OneMore(u: int, v: int, x: int, y: int, s: int, t: int, n: int)
    ensures (n + 1) * (u * v) - u * (t + y) - v * (s + x) + x * y
            == (n * (u * v) - u * t - v * s) + (u - x) * (v - y)
  {
    assert (u - x) * (v - y) == u * v - u * y - x * v + x * y;
  }

  lemma LastOf(a: seq<int>, b: seq<int>)
    requires |a| == |b| && a != []
    ensures var n := |a| - 1;
            Total(a) == Total(a[..n]) + a[n] && Dot(a, b) == Dot(a[..n], b[..n]) + a[n] * b[n]
  {
  }

  lemma Regroup(m: int, d: int, e: int, t: int, u: int, x: int, s: int, v: int, y: int, n: int, f: int)
    ensures m * (d + e) - (t + u) * x - (s + v) * y + (n + 1) * f
            == (m * d - t * x - s * y + n * f) + (m * e - u * x - v * y + f)
  {
  }

  lemma PairsIs(a: seq<int>, b: seq<int>)
    requires |a| == |b|
    ensures Pairs(a, b) == 2 * (|a| * Dot(a, b) - Total(a) * Total(b))
  {
    AgainstAllIs(a, b, a, b);
  }

  lemma {:induction false} PairsOfEqual(us: seq<int>, vs: seq<int>, a: seq<int>, b: seq<int>)
    requires |us| == |vs| && |a| == |b|
    requires forall i, j :: 0 <= i < |us| && 0 <= j < |a| ==> us[i] == a[j] && vs[i] == b[j]
    ensures AgainstAll(us, vs, a, b) == 0
    decreases |us|
  {
    if us == [] {
    } else {
      var n := |us| - 1;
      PairsOfEqual(us[..n], vs[..n], a, b);
      AgainstEqual(us[n], vs[n], a, b);
    }
  }

  lemma {:induction false} AgainstEqual(u: int, v: int, a: seq<int>, b: seq<int>)
    requires |a| == |b| && forall j :: 0 <= j < |a| ==> u == a[j]
    ensures Against(u, v, a, b) == 0
    decreases |a|
  {
    if a == [] {
    } else {
      AgainstEqual(u, v, a[..|a| - 1], b[..|b| - 1]);
    }
  }

  lemma {:induction false} TotalOfEqual(a: seq<int>, u: int)
    requires forall j :: 0 <= j < |a| ==> a[j] == u
    ensures Total(a) == |a| * u
    decreases |a|
  {
    if a == [] {
    } else {
      TotalOfEqual(a[..|a| - 1], u);
      assert |a| * u == (|a| - 1) * u + u;
    }
  }

  // ---------- The pixels of a window ----------

  /** The 64 pixels of the window in the first picture, row by row. */
  function PixelsA(p: Pictures, x: nat, y: nat): (a: seq<int>)
    requires y >= 1
    ensures |a| == 64
  {
    seq(64, i requires 0 <= i < 64 => A(p, 4 * x + i % 8, 4 * (y - 1) + i / 8) as int)
  }

  function PixelsB(p: Pictures, x: nat, y: nat): (b: seq<int>)
    requires y >= 1
    ensures |b| == 64
  {
    seq(64, i requires 0 <= i < 64 => B(p, 4 * x + i % 8, 4 * (y - 1) + i / 8) as int)
  }

  function SumsOf(a: seq<int>, b: seq<int>): Sums
    requires |a| == |b|
  {
    Sums(Total(a), Total(b), Dot(a, a) + Dot(b, b), Dot(a, b))
  }

  lemma SumsSnoc(a: seq<int>, b: seq<int>, n: nat)
    requires |a| == |b| && n < |a|
    ensures SumsOf(a[..n + 1], b[..n + 1])
            == Plus(SumsOf(a[..n], b[..n]), Sums(a[n], b[n], a[n] * a[n] + b[n] * b[n], a[n] * b[n]))
  {
    assert a[..n + 1][..n] == a[..n] && b[..n + 1][..n] == b[..n];
    LastOf(a[..n + 1], b[..n + 1]);
    LastOf(a[..n + 1], a[..n + 1]);
    LastOf(b[..n + 1], b[..n + 1]);
  }

  lemma PixelInRow(p: Pictures, x: nat, y: nat, r: nat, c: nat)
    requires y >= 1 && r < 8 && c < 8
    ensures var u, v := PixelsA(p, x, y)[8 * r + c], PixelsB(p, x, y)[8 * r + c];
            Sums(u, v, u * u + v * v, u * v) == Pixel(p, 4 * x + c, 4 * (y - 1) + r)
  {
    assert (8 * r + c) % 8 == c && (8 * r + c) / 8 == r;
  }

  lemma {:induction false} RowOfPixels(p: Pictures, x: nat, y: nat, r: nat, w: nat)
    requires y >= 1 && r < 8 && w <= 8
    ensures var a, b := PixelsA(p, x, y), PixelsB(p, x, y);
            SumsOf(a[..8 * r + w], b[..8 * r + w])
            == Plus(SumsOf(a[..8 * r], b[..8 * r]), Row(p, 4 * x, 4 * (y - 1) + r, w))
    decreases w
  {
    hide PixelsA, PixelsB, SumsOf, Pixel, Plus;
    var a, b := PixelsA(p, x, y), PixelsB(p, x, y);
    if w == 0 {
      PlusNothing(SumsOf(a[..8 * r], b[..8 * r]));
    } else {
      RowOfPixels(p, x, y, r, w - 1);
      SumsSnoc(a, b, 8 * r + (w - 1));
      PixelInRow(p, x, y, r, w - 1);
      PlusAssociative(SumsOf(a[..8 * r], b[..8 * r]), Row(p, 4 * x, 4 * (y - 1) + r, w - 1),
                      Pixel(p, 4 * x + w - 1, 4 * (y - 1) + r));
    }
  }

  lemma {:induction false} RowsOfPixels(p: Pictures, x: nat, y: nat, h: nat)
    requires y >= 1 && h <= 8
    ensures SumsOf(PixelsA(p, x, y)[..8 * h], PixelsB(p, x, y)[..8 * h]) == Rect(p, 4 * x, 4 * (y - 1), 8, h)
  {
    if h == 0 {
    } else {
      RowsOfPixels(p, x, y, h - 1);
      RowOfPixels(p, x, y, h - 1, 8);
    }
  }

  lemma WindowOfPixels(p: Pictures, x: nat, y: nat)
    requires y >= 1
    ensures Window(p, x, y) == SumsOf(PixelsA(p, x, y), PixelsB(p, x, y))
  {
    RowsOfPixels(p, x, y, 8);
    assert PixelsA(p, x, y)[..64] == PixelsA(p, x, y) && PixelsB(p, x, y)[..64] == PixelsB(p, x, y);
  }

  // ---------- The index ----------

  /** Half the sum of (a_i - a_j)^2 + (b_i - b_j)^2 over all i and j. */
  function Spread(a: seq<int>, b: seq<int>): int
    requires |a| == |b|
  {
    (Pairs(a, a) + Pairs(b, b)) / 2
  }

  /** The index of any window, in terms of its pixels. */
  lemma IndexExactly(p: Pictures, x: nat, y: nat)
    requires y >= 1
    ensures Denominator(Window(p, x, y)) > 0
    ensures var a, b := PixelsA(p, x, y), PixelsB(p, x, y);
            var means, spread := Total(a) * Total(a) + Total(b) * Total(b) + 416, Spread(a, b) + 235963;
            && means > 0 && spread > 0 && 2 * Spread(a, b) == Pairs(a, a) + Pairs(b, b)
            && Index(Window(p, x, y))
               == ((2 * Total(a) * Total(b) + 416) * (Pairs(a, b) + 235963)) as real / (means * spread) as real
  {
    hide Window, Pairs, Total, Dot, PixelsA, PixelsB, Numerator, Denominator, Vars, Covar;
    WindowOfPixels(p, x, y);
    WindowVariance(p, x, y);
    IndexRange(p, x, y);
    FactorsOfPixels(PixelsA(p, x, y), PixelsB(p, x, y));
  }

  lemma FactorsOfPixels(a: seq<int>, b: seq<int>)
    requires |a| == |b| == 64 && 0 <= Vars(SumsOf(a, b))
    ensures var means, spread := Total(a) * Total(a) + Total(b) * Total(b) + 416, Spread(a, b) + 235963;
            && means > 0 && spread > 0 && 2 * Spread(a, b) == Pairs(a, a) + Pairs(b, b)
            && Numerator(SumsOf(a, b)) == (2 * Total(a) * Total(b) + 416) * (Pairs(a, b) + 235963)
            && Denominator(SumsOf(a, b)) == means * spread
  {
    hide Pairs, Total, Dot;
    PairsIs(a, b);
    PairsIs(a, a);
    PairsIs(b, b);
    SquareOfDifference(Total(a), 0);
    SquareOfDifference(Total(b), 0);
  }

  lemma Cancel(n: int, d: int, c: int)
    requires d > 0 && c > 0
    ensures d * c > 0 && (n * c) as real / (d * c) as real == n as real / d as real
  {
    assert d * c >= c;
    assert (n * c) as real == n as real * c as real && (d * c) as real == d as real * c as real;
    var q := n as real / d as real;
    assert q * d as real == n as real;
    assert q * (d as real * c as real) == n as real * c as real;
  }

  /** Where each picture is of one value throughout the window, contrast drops out. */
  lemma UniformIndex(p: Pictures, x: nat, y: nat, u: int, v: int)
    requires y >= 1
    requires forall i :: 0 <= i < 64 ==> PixelsA(p, x, y)[i] == u && PixelsB(p, x, y)[i] == v
    ensures Denominator(Window(p, x, y)) > 0 && 4096 * (u * u + v * v) + 416 > 0
    ensures Index(Window(p, x, y)) == (8192 * (u * v) + 416) as real / (4096 * (u * u + v * v) + 416) as real
  {
    var a, b := PixelsA(p, x, y), PixelsB(p, x, y);
    TotalOfEqual(a, u);
    TotalOfEqual(b, v);
    PairsOfEqual(a, b, a, b);
    PairsOfEqual(a, a, a, a);
    PairsOfEqual(b, b, b, b);
    hide Window, Pairs, Total, PixelsA, PixelsB, Index, Denominator;
    IndexExactly(p, x, y);
    SquaresOf64(u, v);
    Cancel(8192 * (u * v) + 416, 4096 * (u * u + v * v) + 416, 235963);
  }

  lemma SquaresOf64(u: int, v: int)
    ensures 64 * u * (64 * u) == 4096 * (u * u) && 64 * v * (64 * v) == 4096 * (v * v)
    ensures 2 * (64 * u) * (64 * v) == 8192 * (u * v) && u * u >= 0 && v * v >= 0
  {
  }

  /** Where both pictures are equally bright in the window, brightness drops out. */
  lemma EqualSumsIndex(p: Pictures, x: nat, y: nat)
    requires y >= 1 && Total(PixelsA(p, x, y)) == Total(PixelsB(p, x, y))
    ensures Denominator(Window(p, x, y)) > 0 && Spread(PixelsA(p, x, y), PixelsB(p, x, y)) + 235963 > 0
    ensures Index(Window(p, x, y))
            == (Pairs(PixelsA(p, x, y), PixelsB(p, x, y)) + 235963) as real
               / (Spread(PixelsA(p, x, y), PixelsB(p, x, y)) + 235963) as real
  {
    hide Window, Pairs, Total, PixelsA, PixelsB, Index, Denominator, Spread;
    IndexExactly(p, x, y);
    var a, b := PixelsA(p, x, y), PixelsB(p, x, y);
    var t := Total(a);
    assert 2 * t * t + 416 == t * t + t * t + 416;
    Cancel(Pairs(a, b) + 235963, Spread(a, b) + 235963, 2 * t * t + 416);
  }
}
