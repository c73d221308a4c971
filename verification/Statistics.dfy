// Luminance statistics of a raw frame: a histogram with running sums, and percentiles read
// off the histogram. Floating-point values are exact reals.
module Statistics {
  import opened Bytes
  import opened PixelFormats
  import opened RawImages
  import opened Division

  // ---------------------------------------------------------------------------
  // Luminance of one pixel
  // ---------------------------------------------------------------------------

  function NormalizedGrayscale(sample: nat, maximum: nat): (v: byte)
    requires maximum > 0
    ensures sample >= maximum ==> v == 255
    ensures maximum == 255 && sample <= 255 ==> v == sample
  {
    var clamped := Min(sample, maximum);
    NormalizedFits(clamped, maximum);
    (clamped * 255 + maximum / 2) / maximum
  }

  lemma NormalizedFits(clamped: nat, maximum: nat)
    requires clamped <= maximum && maximum > 0
    ensures 0 <= (clamped * 255 + maximum / 2) / maximum <= 255
    ensures clamped == maximum ==> (clamped * 255 + maximum / 2) / maximum == 255
  {
    QuotientAtMost(clamped * 255 + maximum / 2, maximum, 255);
    if clamped == maximum {
      QuotientAtLeast(clamped * 255 + maximum / 2, maximum, 255);
    }
  }

  function RgbLuminance(c: Rgb): byte {
    (54 * c.r + 183 * c.g + 19 * c.b + 128) / 256
  }

  // A grey sample is scaled to the nearest of the levels 0 to 255, larger samples to the last one.
  lemma GreyLevelIsNearest(sample: nat, maximum: nat)
    requires maximum > 0
    ensures var v := NormalizedGrayscale(sample, maximum) as int;
            if sample >= maximum then v == 255
            else -(maximum as int) <= 2 * (v * maximum - sample * 255) <= maximum
  {
    var clamped := Min(sample, maximum);
    QuotientBounds(clamped * 255 + maximum / 2, maximum);
  }

  // The luminance is the mean of red, green and blue by the weights 54, 183 and 19 of 256, rounded.
  lemma LuminanceIsMean(c: Rgb)
    ensures -128 <= 256 * RgbLuminance(c) - (54 * c.r + 183 * c.g + 19 * c.b) <= 128
    ensures RgbLuminance(Rgb(255, 0, 0)) == 54 && RgbLuminance(Rgb(0, 255, 0)) == 182 && RgbLuminance(Rgb(0, 0, 255)) == 19
  {
  }

  // Grey and planar pixels are measured by their sample, colour pixels by their luminance.
  lemma PixelsAreMeasured(f: PixelFormat, p: seq<byte>)
    requires |p| == ReadBytes(f)
    ensures f == GRAY8 || Planar(f) ==> Luminance(f, p) == p[0]
    ensures Grayscale(f) ==> Luminance(f, p) == NormalizedGrayscale(GraySample(f, p), SampleMax(f))
    ensures !Grayscale(f) && !Planar(f) ==> Luminance(f, p) == RgbLuminance(PixelColour(f, p))
  {
  }

  // The luminances of a frame are those of its pixels, row by row.
  lemma {:induction false} LuminanceAt(img: RawImage, rows: nat, x: nat, y: nat)
    requires x < img.width && y < rows
    ensures y * img.width + x < |Luminances(img, rows)|
    ensures Luminances(img, rows)[y * img.width + x] == Luminance(img.format, PixelAt(img, x, y))
  {
    hide Luminance, PixelAt;
    assert rows * img.width == (rows - 1) * img.width + img.width;
    if y == rows - 1 {
      RowLuminanceAt(img, y, img.width, x);
    } else {
      LuminanceAt(img, rows - 1, x, y);
    }
  }

  lemma {:induction false} RowLuminanceAt(img: RawImage, y: nat, n: nat, x: nat)
    requires x < n
    ensures RowLuminances(img, y, n)[x] == Luminance(img.format, PixelAt(img, x, y))
  {
    hide Luminance, PixelAt;
    if x == n - 1 {
    } else {
      RowLuminanceAt(img, y, n - 1, x);
    }
  }

  // The weights add up to 256, so a grey pixel keeps its level.
  lemma GreyKeepsLevel(v: byte)
    ensures RgbLuminance(Rgb(v, v, v)) == v
  {
  }

  function Luminance(f: PixelFormat, p: seq<byte>): byte
    requires |p| == ReadBytes(f)
  {
    if Grayscale(f) then NormalizedGrayscale(GraySample(f, p), SampleMax(f))
    else if Planar(f) then p[0]
    else RgbLuminance(PixelColour(f, p))
  }

  // Luminances of the first `x` pixels of row `y`, and of all rows before row `y`.
  function RowLuminances(img: RawImage, y: nat, x: nat): (ls: seq<byte>)
    ensures |ls| == x
  {
    if x == 0 then [] else RowLuminances(img, y, x - 1) + [Luminance(img.format, PixelAt(img, x - 1, y))]
  }

  function Luminances(img: RawImage, y: nat): (ls: seq<byte>)
    ensures |ls| == y * img.width
  {
    if y == 0 then []
    else
      assert y * img.width == (y - 1) * img.width + img.width;
      Luminances(img, y - 1) + RowLuminances(img, y - 1, img.width)
  }

  // ---------------------------------------------------------------------------
  // Counting and sorting
  // ---------------------------------------------------------------------------

  // How many elements of `m` are at most `b`, read off bin by bin.
  function UpTo(m: multiset<byte>, b: int): nat
    requires b < 256
    decreases b + 1
  {
    if b < 0 then 0 else UpTo(m, b - 1) + m[b as byte]
  }

  function AtMost(s: seq<byte>, b: int): (n: nat)
    ensures n <= |s|
  {
    if s == [] then 0 else AtMost(s[..|s| - 1], b) + (if s[|s| - 1] <= b then 1 else 0)
  }

  lemma {:induction false} UpToAdds(m: multiset<byte>, v: byte, b: int)
    requires b < 256
    ensures UpTo(m + multiset{v}, b) == UpTo(m, b) + (if v <= b then 1 else 0)
    decreases b + 1
  {
    if b < 0 {
    } else {
      UpToAdds(m, v, b - 1);
    }
  }

  // The cumulative histogram counts the elements up to a level.
  lemma {:induction false} UpToIsAtMost(s: seq<byte>, b: int)
    requires b < 256
    ensures UpTo(multiset(s), b) == AtMost(s, b)
  {
    if s == [] {
      UpToEmpty(b);
    } else {
      var init, last := s[..|s| - 1], s[|s| - 1];
      assert s == init + [last];
      UpToIsAtMost(init, b);
      UpToAdds(multiset(init), last, b);
      assert multiset(s) == multiset(init) + multiset{last};
    }
  }

  lemma {:induction false} UpToEmpty(b: int)
    requires b < 256
    ensures UpTo(multiset{}, b) == 0
    decreases b + 1
  {
    if b < 0 {
    } else {
      UpToEmpty(b - 1);
    }
  }

  predicate Sorted(s: seq<byte>) {
    forall i, j :: 0 <= i <= j < |s| ==> s[i] <= s[j]
  }

  // Inserting into a sorted list, and the sorted list of all elements.
  function Inserted(s: seq<byte>, v: byte): (r: seq<byte>)
    ensures |r| == |s| + 1 && multiset(r) == multiset(s) + multiset{v}
  {
    if s == [] || s[|s| - 1] <= v then s + [v]
    else
      assert s == s[..|s| - 1] + [s[|s| - 1]];
      Inserted(s[..|s| - 1], v) + [s[|s| - 1]]
  }

  lemma {:induction false} InsertedSorted(s: seq<byte>, v: byte)
    requires Sorted(s)
    ensures Sorted(Inserted(s, v))
    ensures var r := Inserted(s, v); r[|s|] == if s != [] && s[|s| - 1] > v then s[|s| - 1] else v
  {
    if s != [] && s[|s| - 1] > v {
      var init := s[..|s| - 1];
      assert forall j, k :: 0 <= j <= k < |init| ==> init[j] == s[j] <= s[k] == init[k];
      InsertedSorted(init, v);
    }
  }

  function SortedCopy(s: seq<byte>): (r: seq<byte>)
    ensures Sorted(r) && |r| == |s| && multiset(r) == multiset(s)
  {
    if s == [] then []
    else
      assert s == s[..|s| - 1] + [s[|s| - 1]];
      InsertedSorted(SortedCopy(s[..|s| - 1]), s[|s| - 1]);
      Inserted(SortedCopy(s[..|s| - 1]), s[|s| - 1])
  }

  // How many elements are at most a level, counted one by one.
  lemma AtMostAppend(s: seq<byte>, v: byte, b: int)
    ensures AtMost([], b) == 0
    ensures AtMost(s + [v], b) == AtMost(s, b) + (if v as int <= b then 1 else 0)
  {
    assert (s + [v])[..|s|] == s;
  }

  // In a sorted list the elements up to a level are exactly the first ones.
  lemma {:induction false} SortedSplit(s: seq<byte>, b: int, i: nat)
    requires Sorted(s) && i < |s|
    ensures s[i] <= b <==> i < AtMost(s, b)
  {
    var init, last := s[..|s| - 1], s[|s| - 1];
    assert forall j, k :: 0 <= j <= k < |init| ==> init[j] == s[j] <= s[k] == init[k];
    if i < |s| - 1 {
      SortedSplit(init, b, i);
      assert init[i] == s[i] <= last;
      if last <= b && |init| > 0 {
        SortedSplit(init, b, |init| - 1);
        assert init[|init| - 1] == s[|init| - 1] <= last;
      }
    } else if last <= b && |init| > 0 {
      SortedSplit(init, b, |init| - 1);
      assert init[|init| - 1] == s[|init| - 1] <= last;
    }
  }

  // ---------------------------------------------------------------------------
  // Percentiles
  // ---------------------------------------------------------------------------

  // The rank is computed in 64-bit arithmetic that wraps.
  function Rank(count: nat, numerator: nat): nat {
    Max(1, (count * numerator + 99) % U64 / 100)
  }

  method Percentile(histogram: array<nat>, count: nat, numerator: nat, ghost m: multiset<byte>) returns (p: byte)
    requires histogram.Length == 256 && forall v: byte :: histogram[v] == m[v]
    ensures UpTo(m, p) >= Rank(count, numerator) || (p == 255 && UpTo(m, 255) < Rank(count, numerator))
    ensures p > 0 ==> UpTo(m, p - 1) < Rank(count, numerator)
  {
    var rank := Max(1, (count * numerator + 99) % U64 / 100);
    var cumulative := 0;
    var bin := 0;
    while bin < histogram.Length
      invariant bin <= 256
      invariant cumulative == UpTo(m, bin - 1) && cumulative < rank
    {
      cumulative := cumulative + histogram[bin];
      if cumulative >= rank {
        return bin;
      }
      bin := bin + 1;
    }
    UpToGrows(m, 254, 255);
    return 255;
  }

  lemma {:induction false} UpToGrows(m: multiset<byte>, a: int, b: int)
    requires a <= b < 256
    ensures UpTo(m, a) <= UpTo(m, b)
    decreases b - a
  {
    if a == b {
    } else {
      UpToGrows(m, a, b - 1);
    }
  }

  // 1 <= rank <= count for percentages up to 100 while the 64-bit product does not wrap.
  lemma RankInRange(count: nat, numerator: nat)
    requires count > 0 && numerator <= 100 && count * numerator + 99 < U64
    ensures 1 <= Rank(count, numerator) <= count
    ensures Rank(count, numerator) == Max(1, (count * numerator + 99) / 100)
  {
    CommutedGrowth(count, numerator, 100);
    RankOfProduct(count * numerator, count);
  }

  lemma RankOfProduct(product: nat, count: nat)
    requires count > 0 && product <= count * 100 && product + 99 < U64
    ensures (product + 99) % U64 == product + 99
    ensures Max(1, (product + 99) / 100) <= count
  {
  }

  // The level found is the element of that rank in the sorted list of luminances.
  lemma PercentileIsSortedElement(ls: seq<byte>, count: nat, numerator: nat, p: byte)
    requires ls != [] && count == |ls| && numerator <= 100 && count * numerator + 99 < U64
    requires UpTo(multiset(ls), p) >= Rank(count, numerator) || (p == 255 && UpTo(multiset(ls), 255) < Rank(count, numerator))
    requires p > 0 ==> UpTo(multiset(ls), p - 1) < Rank(count, numerator)
    ensures 1 <= Rank(count, numerator) <= |ls|
    ensures p == SortedCopy(ls)[Rank(count, numerator) - 1]
    ensures UpTo(multiset(ls), p) >= Rank(count, numerator)
  {
    hide SortedCopy, UpTo, Rank;
    var s := SortedCopy(ls);
    RankInRange(count, numerator);
    var k := Rank(count, numerator) - 1;
    UpToIsAtMost(s, 255);
    UpToIsAtMost(s, p);
    SortedSplit(s, 255, |s| - 1);
    SortedSplit(s, p, k);
    if p > 0 {
      UpToIsAtMost(s, p - 1);
      SortedSplit(s, p - 1, k);
    }
  }

  // ---------------------------------------------------------------------------
  // Sums
  // ---------------------------------------------------------------------------

  function Sum(s: seq<byte>): nat {
    if s == [] then 0 else Sum(s[..|s| - 1]) + s[|s| - 1] as int
  }

  function SumSquares(s: seq<byte>): nat {
    if s == [] then 0 else SumSquares(s[..|s| - 1]) + s[|s| - 1] as int * s[|s| - 1] as int
  }

  lemma SquareNonNegative(d: int)
    ensures d * d >= 0
  {
    if d < 0 {
      ProductNonNegative(-d, -d);
      assert (-d) * (-d) == d * d;
    } else {
      ProductNonNegative(d, d);
    }
  }

  lemma ProductNonNegative(a: nat, b: nat)
    ensures a * b >= 0
  {
  }

  lemma SquareOfDifference(v: int, x: int)
    ensures v * v - 2 * (x * v) + x * x >= 0
  {
    var d := v - x;
    assert d * v == v * v - x * v;
    assert d * x == v * x - x * x;
    assert d * d == d * v - d * x;
    SquareNonNegative(d);
  }

  // The sum of squared distances to any level is never negative.
  lemma {:induction false} DistancesNonNegative(s: seq<byte>, x: int)
    ensures SumSquares(s) - 2 * (x * Sum(s)) + |s| * (x * x) >= 0
  {
    if s == [] {
    } else {
      var init, v := s[..|s| - 1], s[|s| - 1] as int;
      DistancesNonNegative(init, x);
      SquareOfDifference(v, x);
      Distributes(x, Sum(init), v);
      Distributes(x * x, |init|, 1);
    }
  }

  lemma Distributes(x: int, a: int, b: int)
    ensures x * (a + b) == x * a + x * b
    ensures (a + b) * x == a * x + b * x
  {
  }

  // count * (sum of squares) is at least the square of the sum.
  lemma {:induction false} SquaresDominate(s: seq<byte>)
    ensures |s| * SumSquares(s) >= Sum(s) * Sum(s)
  {
    if s == [] {
    } else {
      var init, v := s[..|s| - 1], s[|s| - 1] as int;
      SquaresDominate(init);
      DistancesNonNegative(init, v);
      DominationStep(|init|, SumSquares(init), Sum(init), v);
    }
  }

  lemma DominationStep(n: nat, q: int, t: int, v: int)
    requires n * q >= t * t && q - 2 * (v * t) + n * (v * v) >= 0
    ensures (n + 1) * (q + v * v) >= (t + v) * (t + v)
  {
    Distributes(n + 1, q, v * v);
    Distributes(q, n, 1);
    Distributes(v * v, n, 1);
    Distributes(t + v, t, v);
    Distributes(t, t, v);
    Distributes(v, t, v);
  }

  function Mean(s: seq<byte>): real
    requires s != []
  {
    Sum(s) as real / |s| as real
  }

  // The raw variance, before it is clamped at 0.
  function Variance(s: seq<byte>): real
    requires s != []
  {
    SumSquares(s) as real / |s| as real - Mean(s) * Mean(s)
  }

  // The differences from a level, and their squares, summed up.
  function Deviations(s: seq<byte>, m: real): real {
    if s == [] then 0.0 else Deviations(s[..|s| - 1], m) + (s[|s| - 1] as real - m)
  }

  function SquaredDeviations(s: seq<byte>, m: real): real {
    if s == [] then 0.0
    else SquaredDeviations(s[..|s| - 1], m) + (s[|s| - 1] as real - m) * (s[|s| - 1] as real - m)
  }

  lemma {:induction false} DeviationsAre(s: seq<byte>, m: real)
    ensures Deviations(s, m) == Sum(s) as real - |s| as real * m
  {
    if s == [] {
    } else {
      DeviationsAre(s[..|s| - 1], m);
      assert |s| as real * m == (|s| - 1) as real * m + m;
    }
  }

  lemma {:induction false} SquaredDeviationsAre(s: seq<byte>, m: real)
    ensures SquaredDeviations(s, m) == SumSquares(s) as real - 2.0 * (m * Sum(s) as real) + |s| as real * (m * m)
  {
    if s == [] {
    } else {
      var init, v := s[..|s| - 1], s[|s| - 1] as real;
      SquaredDeviationsAre(init, m);
      assert SumSquares(s) as real == SumSquares(init) as real + v * v;
      assert Sum(s) as real == Sum(init) as real + v;
      OneMoreSquare(SumSquares(init) as real, Sum(init) as real, |init| as real, m, v);
    }
  }

  lemma OneMoreSquare(q: real, t: real, n: real, m: real, v: real)
    ensures q - 2.0 * (m * t) + n * (m * m) + (v - m) * (v - m) == (q + v * v) - 2.0 * (m * (t + v)) + (n + 1.0) * (m * m)
  {
    BinomialSquare(v, m);
    TakeIn(m, t, v);
    TakeIn(m * m, n, 1.0);
  }

  lemma BinomialSquare(v: real, m: real)
    ensures (v - m) * (v - m) == v * v - 2.0 * (m * v) + m * m
  {
  }

  lemma TakeIn(x: real, a: real, b: real)
    ensures x * (a + b) == x * a + x * b && (a + b) * x == a * x + b * x
  {
  }

  // The mean is the level from which the differences cancel out, and the variance is the mean of the
  // squared differences from it.
  lemma MeanAndVariance(s: seq<byte>)
    requires s != []
    ensures Deviations(s, Mean(s)) == 0.0
    ensures Variance(s) * |s| as real == SquaredDeviations(s, Mean(s))
  {
    hide Sum, SumSquares, Deviations, SquaredDeviations;
    DeviationsAre(s, Mean(s));
    SquaredDeviationsAre(s, Mean(s));
    VarianceAlgebra(|s| as real, Sum(s) as real, SumSquares(s) as real, Mean(s));
  }

  lemma VarianceAlgebra(n: real, t: real, q: real, m: real)
    requires n > 0.0 && m == t / n
    ensures n * m == t
    ensures (q / n - m * m) * n == q - 2.0 * (m * t) + n * (m * m)
  {
    QuotientTimes(t, n);
    QuotientTimes(q, n);
    assert n * m == t;
    var mm := m * m;
    ThreeFactors(n, m);
    assert n * mm == t * m;
    TakeOut(q / n, mm, n);
  }

  lemma QuotientTimes(a: real, n: real)
    requires n > 0.0
    ensures a / n * n == a
  {
  }

  lemma ThreeFactors(n: real, m: real)
    ensures n * (m * m) == (n * m) * m
  {
  }

  lemma TakeOut(a: real, b: real, n: real)
    ensures (a - b) * n == a * n - n * b
  {
  }

  // In exact arithmetic the clamp at 0 never acts.
  lemma VarianceClampIsIdle(s: seq<byte>)
    requires s != []
    ensures Variance(s) >= 0.0
  {
    SquaresDominate(s);
    RealVariance(|s|, Sum(s), SumSquares(s));
  }

  lemma RealVariance(n: nat, t: nat, q: nat)
    requires n > 0 && n * q >= t * t
    ensures q as real / n as real - (t as real / n as real) * (t as real / n as real) >= 0.0
  {
    var x, y, m := t as real / n as real, q as real / n as real, n as real;
    assert x * m == t as real && y * m == q as real;
    assert (t * t) as real == (x * m) * (x * m) == (x * x) * (m * m);
    assert (n * q) as real == m * (y * m) == y * (m * m);
    if y < x * x {
      assert (x * x - y) * (m * m) > 0.0;
    }
  }

  // ---------------------------------------------------------------------------
  // The whole computation
  // ---------------------------------------------------------------------------

  datatype Summary = Summary(bins: seq<nat>, count: nat, minimum: byte, maximum: byte, mean: real, variance: real,
                             p01: byte, p50: byte, p99: byte, dark: nat, bright: nat)

  // What the running values mean after the luminances `ls`.
  ghost predicate Accumulated(histogram: array<nat>, sum: nat, sumSquares: nat, minimum: byte, maximum: byte, ls: seq<byte>)
    reads histogram
  {
    && histogram.Length == 256 && (forall v: byte :: histogram[v] == multiset(ls)[v])
    && sum == Sum(ls) && sumSquares == SumSquares(ls)
    && (forall i :: 0 <= i < |ls| ==> minimum <= ls[i] <= maximum)
    && (if ls == [] then minimum == 255 && maximum == 0 else minimum in ls && maximum in ls)
  }

  method Accumulate(histogram: array<nat>, sum: nat, sumSquares: nat, minimum: byte, maximum: byte, l: byte, ghost ls: seq<byte>)
    returns (sum': nat, sumSquares': nat, minimum': byte, maximum': byte)
    requires Accumulated(histogram, sum, sumSquares, minimum, maximum, ls)
    modifies histogram
    ensures Accumulated(histogram, sum', sumSquares', minimum', maximum', ls + [l])
  {
    assert (ls + [l])[..|ls|] == ls;
    histogram[l] := histogram[l] + 1;
    sum' := sum + l as int;
    sumSquares' := sumSquares + l as int * l as int;
    minimum' := if l < minimum then l else minimum;
    maximum' := if maximum < l then l else maximum;
    assert multiset(ls + [l]) == multiset(ls) + multiset{l};
    assert (ls + [l])[|ls|] == l;
    assert forall i :: 0 <= i < |ls| ==> (ls + [l])[i] == ls[i];
  }

  method CountBins(histogram: array<nat>, from: nat, to: nat, ghost m: multiset<byte>) returns (n: nat)
    requires from <= to <= 256 && histogram.Length == 256 && forall v: byte :: histogram[v] == m[v]
    ensures n == UpTo(m, to - 1) - UpTo(m, from - 1)
  {
    n := 0;
    var bin := from;
    while bin < to
      invariant from <= bin <= to && n == UpTo(m, bin - 1) - UpTo(m, from - 1)
    {
      n := n + histogram[bin];
      bin := bin + 1;
    }
  }

  function Total(bins: seq<nat>): nat {
    if bins == [] then 0 else Total(bins[..|bins| - 1]) + bins[|bins| - 1]
  }

  // The bins up to a level hold the elements up to that level.
  lemma {:induction false} BinsAddUp(bins: seq<nat>, m: multiset<byte>, b: int)
    requires |bins| == 256 && (forall v: byte :: bins[v] == m[v]) && -1 <= b < 256
    ensures Total(bins[..b + 1]) == UpTo(m, b)
    decreases b + 1
  {
    if b == -1 {
    } else {
      assert bins[..b + 1][..b] == bins[..b];
      BinsAddUp(bins, m, b - 1);
    }
  }

  // The bins of a histogram sum to the number of elements.
  lemma BinsSumToCount(bins: seq<nat>, ls: seq<byte>)
    requires |bins| == 256 && forall v: byte :: bins[v] == multiset(ls)[v]
    ensures Total(bins) == |ls|
  {
    hide Total, UpTo, AtMost;
    BinsAddUp(bins, multiset(ls), 255);
    assert bins[..256] == bins;
    UpToIsAtMost(ls, 255);
    AllAtMost(ls);
  }

  // One bin for each level, and together they hold all elements.
  predicate IsHistogram(bins: seq<nat>, ls: seq<byte>) {
    |bins| == 256 && (forall v: byte :: bins[v] == multiset(ls)[v]) && Total(bins) == |ls|
  }

  // What a frame's statistics say about its luminances.
  ghost predicate Describes(r: Summary, ls: seq<byte>)
    requires ls != []
  {
    && r.count == |ls|
    && IsHistogram(r.bins, ls)
    && (forall i :: 0 <= i < |ls| ==> r.minimum <= ls[i] <= r.maximum) && r.minimum in ls && r.maximum in ls
    && r.mean == Mean(ls) && r.variance == Variance(ls)
    && r.dark == AtMost(ls, 12) && r.bright == |ls| - AtMost(ls, 242)
    && IsPercentile(r.p01, ls, 1) && IsPercentile(r.p50, ls, 50) && IsPercentile(r.p99, ls, 99)
  }

  // The nearest rank of a percentile, in unbounded arithmetic.
  function NearestRank(count: nat, numerator: nat): nat {
    Max(1, (count * numerator + 99) / 100)
  }

  // Unless the 64-bit product of the rank wraps, the element of the nearest rank in sorted order.
  ghost predicate IsPercentile(p: byte, ls: seq<byte>, numerator: nat)
    requires ls != []
  {
    |ls| * numerator + 99 < U64 ==>
      NearestRank(|ls|, numerator) <= |ls| && p == SortedCopy(ls)[NearestRank(|ls|, numerator) - 1]
  }

  // The rank that the code computes is the nearest rank exactly when the product does not wrap.
  lemma RankIsNearest(count: nat, numerator: nat)
    ensures Rank(count, numerator) == NearestRank(count, numerator) <==> count * numerator + 99 < U64
  {
    RankOfSum(count * numerator + 99);
  }

  lemma RankOfSum(sum: nat)
    ensures Max(1, sum % U64 / 100) == Max(1, sum / 100) <==> sum < U64
  {
    if sum >= U64 {
      assert sum % U64 <= sum - U64;
    }
  }

  lemma {:induction false} AllAtMost(s: seq<byte>)
    ensures AtMost(s, 255) == |s|
  {
    if s == [] {
    } else {
      AllAtMost(s[..|s| - 1]);
    }
  }

  // One percentile, read off the histogram of `ls`.
  method ReadPercentile(histogram: array<nat>, count: nat, numerator: nat, ghost ls: seq<byte>) returns (p: byte)
    requires ls != [] && count == |ls| && numerator <= 100
    requires histogram.Length == 256 && forall v: byte :: histogram[v] == multiset(ls)[v]
    ensures IsPercentile(p, ls, numerator)
  {
    hide UpTo, SortedCopy, Rank;
    p := Percentile(histogram, count, numerator, multiset(ls));
    if count * numerator + 99 < U64 {
      PercentileIsSortedElement(ls, count, numerator, p);
      RankInRange(count, numerator);
    }
  }

  lemma CommutedGrowth(c: nat, a: nat, b: nat)
    requires a <= b
    ensures c * a <= c * b
  {
    ProductGrows(a, b, c);
    assert c * a == a * c && c * b == b * c;
  }

  method Summarise(histogram: array<nat>, count: nat, sum: nat, sumSquares: nat, minimum: byte, maximum: byte, ghost ls: seq<byte>)
    returns (r: Summary)
    requires ls != [] && count == |ls| && Accumulated(histogram, sum, sumSquares, minimum, maximum, ls)
    ensures Describes(r, ls)
  {
    hide UpTo, SortedCopy, AtMost, Sum, SumSquares, IsPercentile, Total;
    ghost var m := multiset(ls);
    var mean := sum as real / count as real;
    var variance := sumSquares as real / count as real - mean * mean;
    assert variance == Variance(ls);
    VarianceClampIsIdle(ls);
    if variance < 0.0 {
      variance := 0.0;
    }
    hide Mean, Variance;
    var p01 := ReadPercentile(histogram, count, 1, ls);
    var p50 := ReadPercentile(histogram, count, 50, ls);
    var p99 := ReadPercentile(histogram, count, 99, ls);
    var dark := CountBins(histogram, 0, 13, m);
    var bright := CountBins(histogram, 243, 256, m);
    UpToBelowZero(m);
    UpToIsAtMost(ls, 12);
    UpToIsAtMost(ls, 242);
    UpToIsAtMost(ls, 255);
    AllAtMost(ls);
    BinsSumToCount(histogram[..], ls);
    r := Summary(histogram[..], count, minimum, maximum, mean, variance, p01, p50, p99, dark, bright);
  }

  lemma UpToBelowZero(m: multiset<byte>)
    ensures UpTo(m, -1) == 0
  {
  }

  method CalculateRawFrameStatistics(img: RawImage, hasData: bool) returns (r: Reading<Summary>)
    requires img.width < U32 && img.height < U32
    ensures r.Refused? <==> !Measurable(Frame(hasData, img.width, img.height, img.stride, img.format, 0, 0))
    ensures r.OutOfBounds? ==> !AllReadable(img)
    ensures r.Done? ==> AllReadable(img) && Luminances(img, img.height) != [] && Describes(r.value, Luminances(img, img.height))
  {
    hide Describes, Luminances, MinRowBytes, Luminance, Readable;
    if !hasData || img.width == 0 || img.height == 0 {
      return Refused;
    }
    var minimumStride := if Planar(img.format) then img.width else MinRowBytes(img.format, img.width);
    if minimumStride == 0 || img.stride < minimumStride {
      return Refused;
    }
    var histogram := new nat[256](_ => 0);
    var sum: nat, sumSquares: nat, minimum: byte, maximum: byte := 0, 0, 255, 0;
    NoRows(img);
    assert Accumulated(histogram, 0, 0, 255, 0, []);
    var y := 0;
    while y < img.height
      invariant y <= img.height
      invariant fresh(histogram)
      invariant Accumulated(histogram, sum, sumSquares, minimum, maximum, Luminances(img, y))
      invariant y > 0 ==> Readable(img, img.width - 1, y - 1)
    {
      var inBounds;
      inBounds, sum, sumSquares, minimum, maximum := AccumulateRow(img, y, histogram, sum, sumSquares, minimum, maximum);
      if !inBounds {
        assert Inside(img, img.width - 1, y);
        return OutOfBounds;
      }
      y := y + 1;
    }
    LastPixelDecides(img);
    ghost var ls := Luminances(img, img.height);
    var count := img.width * img.height;
    ProductFits(img.width, img.height);
    assert img.height * img.width == count;
    var summary := Summarise(histogram, count, sum, sumSquares, minimum, maximum, ls);
    r := Done(summary);
  }

  // The inner loop over one row, up to the first pixel that is not in the buffer.
  method AccumulateRow(img: RawImage, y: nat, histogram: array<nat>, sum: nat, sumSquares: nat, minimum: byte, maximum: byte)
    returns (inBounds: bool, sum': nat, sumSquares': nat, minimum': byte, maximum': byte)
    requires y < img.height && img.width > 0
    requires Accumulated(histogram, sum, sumSquares, minimum, maximum, Luminances(img, y))
    modifies histogram
    ensures inBounds <==> Readable(img, img.width - 1, y)
    ensures inBounds ==> Accumulated(histogram, sum', sumSquares', minimum', maximum', Luminances(img, y + 1))
  {
    hide Accumulated, Luminances, Luminance, Readable;
    inBounds, sum', sumSquares', minimum', maximum' := true, sum, sumSquares, minimum, maximum;
    ghost var before := Luminances(img, y);
    var x := 0;
    assert before + RowLuminances(img, y, 0) == before;
    while x < img.width
      invariant x <= img.width
      invariant Accumulated(histogram, sum', sumSquares', minimum', maximum', before + RowLuminances(img, y, x))
      invariant inBounds && (x > 0 ==> Readable(img, x - 1, y))
    {
      if !Readable(img, x, y) {
        NotReadableLater(img, x, y);
        inBounds := false;
        return;
      }
      var l := Luminance(img.format, PixelAt(img, x, y));
      ghost var ls := before + RowLuminances(img, y, x);
      assert ls + [l] == before + RowLuminances(img, y, x + 1);
      sum', sumSquares', minimum', maximum' := Accumulate(histogram, sum', sumSquares', minimum', maximum', l, ls);
      x := x + 1;
    }
    NextRow(img, y);
  }

  lemma NotReadableLater(img: RawImage, x: nat, y: nat)
    requires x < img.width && !Readable(img, x, y)
    ensures !Readable(img, img.width - 1, y)
  {
    hide Readable;
    if Readable(img, img.width - 1, y) {
      EarlierIsReadable(img, x, y, img.width - 1, y);
    }
  }

  lemma NoRows(img: RawImage)
    ensures Luminances(img, 0) == []
  {
  }

  lemma NextRow(img: RawImage, y: nat)
    ensures Luminances(img, y + 1) == Luminances(img, y) + RowLuminances(img, y, img.width)
  {
  }

  // The percentiles are ordered, between the smallest and the largest luminance.
  lemma PercentilesAreOrdered(r: Summary, ls: seq<byte>)
    requires ls != [] && Describes(r, ls) && |ls| * 99 + 99 < U64
    ensures r.minimum <= r.p01 <= r.p50 <= r.p99 <= r.maximum
    ensures r.variance >= 0.0 && r.dark + r.bright <= r.count
  {
    hide SortedCopy, AtMost, IsHistogram, Variance, Mean;
    var n := |ls|;
    var a, b, c := NearestRank(n, 1) - 1, NearestRank(n, 50) - 1, NearestRank(n, 99) - 1;
    assert a <= b <= c < n;
    SortedElementsLie(ls, a, b);
    SortedElementsLie(ls, b, c);
    assert SortedCopy(ls)[a] in ls && SortedCopy(ls)[c] in ls;
    VarianceClampIsIdle(ls);
    AtMostGrows(ls, 12, 242);
  }

  // Sorted copies are in order and hold nothing but elements of the list.
  lemma SortedElementsLie(ls: seq<byte>, a: nat, b: nat)
    requires a <= b < |ls|
    ensures SortedCopy(ls)[a] <= SortedCopy(ls)[b] && SortedCopy(ls)[a] in ls && SortedCopy(ls)[b] in ls
  {
    hide SortedCopy;
    var s := SortedCopy(ls);
    assert s[a] in multiset(s) && s[b] in multiset(s);
  }

  lemma {:induction false} AtMostGrows(s: seq<byte>, a: int, b: int)
    requires a <= b
    ensures AtMost(s, a) <= AtMost(s, b)
  {
    if s == [] {
    } else {
      AtMostGrows(s[..|s| - 1], a, b);
    }
  }
}
