/** The two transformations both layouts apply to their pixels, as functions
    of the pixels in row-major order: the gray conversion and the 5x5
    Gaussian blur. */
module Transforms {
  import opened Machine
  import opened Pixels
  import opened Histograms
  import opened RasterCodec

  // ---- to gray ----

  /** `to_gray`: every pixel replaced by the gray pixel of its own gray level. */
  function GrayImage(ps: seq<Pixel>, gray: GrayLevel): (qs: seq<Pixel>)
    ensures |qs| == |ps|
    ensures forall k :: 0 <= k < |ps| ==> qs[k].IsGray() && qs[k].red == gray(ps[k].red, ps[k].green, ps[k].blue)
  {
    seq(|ps|, k requires 0 <= k < |ps| => ps[k].ToGrayCorrected(gray))
  }

  predicate AllGray(ps: seq<Pixel>)
  {
    forall k :: 0 <= k < |ps| ==> ps[k].IsGray()
  }

  /** The pixels of a gray image have equal levels in all three channels, so
      its histogram has three equal rows. */
  lemma GrayHistogram(ps: seq<Pixel>)
    requires AllGray(ps)
    ensures HistogramOf(ps)[RedChannel] == HistogramOf(ps)[GreenChannel]
    ensures HistogramOf(ps)[GreenChannel] == HistogramOf(ps)[BlueChannel]
  {
    forall v | 0 <= v < NumLevels
      ensures Count(ps, RedChannel, v) == Count(ps, GreenChannel, v) == Count(ps, BlueChannel, v)
    {
      GrayCounts(ps, v);
    }
  }

  lemma {:induction false} GrayCounts(ps: seq<Pixel>, v: int)
    requires AllGray(ps)
    ensures Count(ps, RedChannel, v) == Count(ps, GreenChannel, v) == Count(ps, BlueChannel, v)
  {
    if ps != [] {
      var front := ps[..|ps| - 1];
      assert AllGray(front) by {
        forall k | 0 <= k < |front| ensures front[k].IsGray() {
          assert front[k] == ps[k];
        }
      }
      GrayCounts(front, v);
      assert ps[|ps| - 1].IsGray();
    }
  }

  /** After `to_gray` the image is gray, whatever the gray level function. */
  lemma {:induction false} GrayImageIsGray(ps: seq<Pixel>, gray: GrayLevel)
    ensures AllGray(GrayImage(ps, gray))
    ensures HistogramOf(GrayImage(ps, gray))[RedChannel] == HistogramOf(GrayImage(ps, gray))[BlueChannel]
  {
    GrayHistogram(GrayImage(ps, gray));
  }

  // ---- the Gaussian blur ----

  /** The 5x5 kernel of the source, row by row, and the sum of its weights. */
  const Kernel: seq<int> :=
    [1, 4, 7, 4, 1] + [4, 16, 26, 16, 4] + [7, 26, 41, 26, 7] + [4, 16, 26, 16, 4] + [1, 4, 7, 4, 1]
  const GaussNorm := 273
  const GaussSize := 25

  /** The total weight of the first `n` taps of a kernel. */
  function Weight(kernel: seq<int>, n: nat): int
    requires n <= |kernel|
  {
    if n == 0 then 0 else Weight(kernel, n - 1) + kernel[n - 1]
  }

  /** A kernel of 25 positive weights whose sum is the norm. The lemmas
      below hold for every such kernel. */
  predicate Normalised(kernel: seq<int>)
  {
    Weights(kernel) && Weight(kernel, GaussSize) == GaussNorm
  }

  /** 25 positive weights. */
  predicate Weights(kernel: seq<int>)
  {
    |kernel| == GaussSize && forall g :: 0 <= g < GaussSize ==> kernel[g] > 0
  }

  /** The source's kernel is normalised: its weights add up to 273. */
  lemma KernelNormalised()
    ensures Normalised(Kernel)
  {
    KernelPositive();
    KernelSum();
  }

  lemma KernelPositive()
    ensures forall g :: 0 <= g < GaussSize ==> Kernel[g] > 0
  {
    assert PositiveFrom(Kernel, 24);
    assert PositiveFrom(Kernel, 23);
    assert PositiveFrom(Kernel, 22);
    assert PositiveFrom(Kernel, 21);
    assert PositiveFrom(Kernel, 20);
    assert PositiveFrom(Kernel, 19);
    assert PositiveFrom(Kernel, 18);
    assert PositiveFrom(Kernel, 17);
    assert PositiveFrom(Kernel, 16);
    assert PositiveFrom(Kernel, 15);
    assert PositiveFrom(Kernel, 14);
    assert PositiveFrom(Kernel, 13);
    assert PositiveFrom(Kernel, 12);
    assert PositiveFrom(Kernel, 11);
    assert PositiveFrom(Kernel, 10);
    assert PositiveFrom(Kernel, 9);
    assert PositiveFrom(Kernel, 8);
    assert PositiveFrom(Kernel, 7);
    assert PositiveFrom(Kernel, 6);
    assert PositiveFrom(Kernel, 5);
    assert PositiveFrom(Kernel, 4);
    assert PositiveFrom(Kernel, 3);
    assert PositiveFrom(Kernel, 2);
    assert PositiveFrom(Kernel, 1);
    assert PositiveFrom(Kernel, 0);
    PositiveAll(Kernel, 0);
  }

  /** Every weight from tap `n` on is positive, checked one tap at a time. */
  predicate PositiveFrom(kernel: seq<int>, n: nat)
    decreases |kernel| - n
  {
    n >= |kernel| || (kernel[n] > 0 && PositiveFrom(kernel, n + 1))
  }

  lemma {:induction false} PositiveAll(kernel: seq<int>, n: nat)
    requires PositiveFrom(kernel, n)
    ensures forall g :: n <= g < |kernel| ==> kernel[g] > 0
    decreases |kernel| - n
  {
    if n < |kernel| {
      PositiveAll(kernel, n + 1);
    }
  }

  lemma KernelSum()
    ensures Weight(Kernel, GaussSize) == GaussNorm
  {
    assert Weight(Kernel, 1) == 1; assert Weight(Kernel, 2) == 5; assert Weight(Kernel, 3) == 12; assert Weight(Kernel, 4) == 16;
    assert Weight(Kernel, 5) == 17; assert Weight(Kernel, 6) == 21; assert Weight(Kernel, 7) == 37; assert Weight(Kernel, 8) == 63;
    assert Weight(Kernel, 9) == 79; assert Weight(Kernel, 10) == 83; assert Weight(Kernel, 11) == 90; assert Weight(Kernel, 12) == 116;
    assert Weight(Kernel, 13) == 157; assert Weight(Kernel, 14) == 183; assert Weight(Kernel, 15) == 190; assert Weight(Kernel, 16) == 194;
    assert Weight(Kernel, 17) == 210; assert Weight(Kernel, 18) == 236; assert Weight(Kernel, 19) == 252; assert Weight(Kernel, 20) == 256;
    assert Weight(Kernel, 21) == 257; assert Weight(Kernel, 22) == 261; assert Weight(Kernel, 23) == 268; assert Weight(Kernel, 24) == 272;
  }

  /** `index(r, c)`: the row-major position of row `r`, column `c`. */
  function Index(w: int, r: int, c: int): int
  {
    r * w + c
  }

  /** Inside the image the position is `r` whole rows and then `c`. */
  lemma IndexIsSpan(w: int, r: int, c: int)
    requires w >= 0 && r >= 0
    ensures Index(w, r, c) == Span(w, r) + c
  {
    SpanIsProduct(w, r);
  }

  lemma {:induction false} SpanGrows(cols: nat, a: nat, b: nat)
    requires a < b
    ensures Span(cols, a) + cols <= Span(cols, b)
    decreases b
  {
    if a < b - 1 {
      SpanGrows(cols, a, b - 1);
    }
  }

  /** A row and column inside the image name a pixel of a covered raster. */
  lemma InImage(ps: seq<Pixel>, w: int, h: int, r: int, c: int)
    requires Covers(ps, w, h) && 0 <= r < h && 0 <= c < w
    ensures 0 <= Span(w, r) + c < |ps|
  {
    SpanGrows(w, r, h);
  }

  /** The pixel at row `r`, column `c`. */
  function At(ps: seq<Pixel>, w: int, h: int, r: int, c: int): Pixel
    requires Covers(ps, w, h) && 0 <= r < h && 0 <= c < w
  {
    InImage(ps, w, h, r, c);
    ps[Span(w, r) + c]
  }

  /** Kernel tap `g` lies `g / 5 - 2` rows and `g % 5 - 2` columns away. */
  function TapRow(row: int, g: int): int
  {
    row + g / 5 - 2
  }

  function TapCol(col: int, g: int): int
  {
    col + g % 5 - 2
  }

  /** What tap `g` around `(row, col)` adds to the accumulator: its pixel
      times its weight, or nothing when its column, and then its row, falls
      outside the image. */
  function Tap(ps: seq<Pixel>, w: int, h: int, kernel: seq<int>, row: int, col: int, g: int): ColorAccumulator
    requires Covers(ps, w, h) && |kernel| == GaussSize && 0 <= g < GaussSize
  {
    var j := TapCol(col, g);
    if j < 0 || j >= w then Zero
    else
      var i := TapRow(row, g);
      if i < 0 || i >= h then Zero
      else At(ps, w, h, i, j).Scale(kernel[g])
  }

  /** What each of the 25 taps around `(row, col)` adds, in kernel order. */
  function Taps(ps: seq<Pixel>, w: int, h: int, kernel: seq<int>, row: int, col: int): (ts: seq<ColorAccumulator>)
    requires Covers(ps, w, h) && |kernel| == GaussSize
    ensures |ts| == GaussSize
  {
    seq(GaussSize, g requires 0 <= g < GaussSize => Tap(ps, w, h, kernel, row, col, g))
  }

  /** The first `n` accumulators added up in order, from zero. */
  function Total(ts: seq<ColorAccumulator>, n: nat): ColorAccumulator
    requires n <= |ts|
  {
    if n == 0 then Zero else Total(ts, n - 1).Plus(ts[n - 1])
  }

  /** The accumulator after the first `n` taps. */
  function TapSum(ps: seq<Pixel>, w: int, h: int, kernel: seq<int>, row: int, col: int, n: nat): ColorAccumulator
    requires Covers(ps, w, h) && |kernel| == GaussSize && n <= GaussSize
  {
    Total(Taps(ps, w, h, kernel, row, col), n)
  }

  /** The kernel loop adds one tap at a time. */
  lemma TapSumNext(ps: seq<Pixel>, w: int, h: int, kernel: seq<int>, row: int, col: int, g: nat)
    requires Covers(ps, w, h) && |kernel| == GaussSize && g < GaussSize
    ensures TapSum(ps, w, h, kernel, row, col, g + 1)
            == TapSum(ps, w, h, kernel, row, col, g).Plus(Tap(ps, w, h, kernel, row, col, g))
  {
  }

  /** The blurred pixel centred on `(row, col)`: the sum over the source's
      kernel divided by the norm with C++ division, each channel cut to its
      low eight bits. */
  function Blur(ps: seq<Pixel>, w: int, h: int, row: int, col: int): Pixel
    requires Covers(ps, w, h)
  {
    FromAccumulator(Quotient(TapSum(ps, w, h, Kernel, row, col, GaussSize), GaussNorm))
  }

  /** `get_pixel_position(index)`: row and column with C++ division. */
  function Position(w: int, k: int): (p: (int, int))
    requires w != 0
    ensures Index(w, p.0, p.1) == k
    ensures w > 0 && k >= 0 ==> 0 <= p.1 < w
  {
    (TruncDiv(k, w), TruncMod(k, w))
  }

  /** Inside the image `get_pixel_position` inverts `index`. */
  lemma PositionOfIndex(w: int, r: int, c: int)
    requires w > 0 && r >= 0 && 0 <= c < w
    ensures Position(w, Index(w, r, c)) == (r, c)
  {
    var k := Index(w, r, c);
    TruncAgrees(k, w);
    DivUnique(k, w, r, c);
  }

  /** Euclidean division has one quotient and remainder. */
  lemma DivUnique(k: int, w: int, q: int, m: int)
    requires w > 0 && 0 <= m < w && k == q * w + m
    ensures k / w == q && k % w == m
  {
    var q', m' := k / w, k % w;
    assert k == q' * w + m' && 0 <= m' < w;
    Distribute(q', q, w);
    if q' > q {
      MulAtLeast(q' - q, w);
    } else if q' < q {
      Distribute(q, q', w);
      MulAtLeast(q - q', w);
    }
  }

  lemma Distribute(a: int, b: int, w: int)
    ensures a * w - b * w == (a - b) * w
  {
  }

  lemma {:induction false} MulAtLeast(a: int, w: int)
    requires a >= 1 && w > 0
    ensures a * w >= w
    decreases a
  {
    if a > 1 {
      MulAtLeast(a - 1, w);
      Distribute(a, 1, w);
    }
  }

  /** `gauss`: every pixel blurred around its own position, from the pixels
      before the blur. */
  function GaussImage(ps: seq<Pixel>, w: int, h: int): (qs: seq<Pixel>)
    requires Covers(ps, w, h) && (|ps| > 0 ==> w != 0)
    ensures |qs| == |ps|
  {
    seq(|ps|, k requires 0 <= k < |ps| => Blur(ps, w, h, Position(w, k).0, Position(w, k).1))
  }

  // ---- sums of weighted terms ----

  /** Every term lies in `0 .. ks[g] * m` in channel `ch`. */
  predicate Within(ts: seq<ColorAccumulator>, ks: seq<int>, ch: int, m: int)
    requires 0 <= ch < NumChannels
  {
    |ts| == |ks| && forall g :: 0 <= g < |ts| ==> 0 <= ts[g].Channel(ch) <= ks[g] * m
  }

  /** A sum of terms that stay within their weights times `m` stays within
      the total weight times `m`. */
  lemma {:induction false} TotalBounds(ts: seq<ColorAccumulator>, ks: seq<int>, n: nat, ch: int, m: int)
    requires 0 <= ch < NumChannels && Within(ts, ks, ch, m) && n <= |ts|
    ensures 0 <= Total(ts, n).Channel(ch) <= Weight(ks, n) * m
    decreases n
  {
    if n > 0 {
      TotalBounds(ts, ks, n - 1, ch, m);
      BoundStep(Total(ts, n - 1).Channel(ch), ts[n - 1].Channel(ch), Weight(ks, n - 1), ks[n - 1], Weight(ks, n), m);
    }
  }

  lemma BoundStep(a: int, t: int, total: int, weight: int, after: int, m: int)
    requires 0 <= a <= total * m && 0 <= t <= weight * m && after == total + weight
    ensures 0 <= a + t <= after * m
  {
    assert after * m == total * m + weight * m;
  }

  /** When one term of positive weight is zero, the sum falls at least `m`
      short of the total weight times `m`. */
  lemma {:induction false} TotalShort(ts: seq<ColorAccumulator>, ks: seq<int>, n: nat, ch: int, m: byte, missing: int)
    requires 0 <= ch < NumChannels && Within(ts, ks, ch, m) && n <= |ts|
    requires 0 <= missing < n && ts[missing].Channel(ch) == 0 && ks[missing] >= 1
    ensures 0 <= Total(ts, n).Channel(ch)
    ensures Total(ts, n).Channel(ch) + m <= Weight(ks, n) * m
    decreases n
  {
    if n - 1 == missing {
      TotalBounds(ts, ks, n - 1, ch, m);
      ShortStep(Total(ts, n - 1).Channel(ch), Weight(ks, n - 1), ks[n - 1], Weight(ks, n), m);
    } else {
      TotalShort(ts, ks, n - 1, ch, m, missing);
      ShortBoundStep(Total(ts, n - 1).Channel(ch), ts[n - 1].Channel(ch), Weight(ks, n - 1), ks[n - 1], Weight(ks, n), m);
    }
  }

  lemma ShortStep(a: int, total: int, weight: int, after: int, m: int)
    requires 0 <= a <= total * m && weight >= 1 && after == total + weight && m >= 0
    ensures a + m <= after * m
  {
    assert after * m == total * m + (weight - 1) * m + m;
  }

  lemma ShortBoundStep(a: int, t: int, total: int, weight: int, after: int, m: int)
    requires 0 <= a && a + m <= total * m && 0 <= t <= weight * m && after == total + weight
    ensures a + t + m <= after * m
  {
    assert after * m == total * m + weight * m;
  }

  /** A sum of one pixel scaled by each weight is that pixel scaled by the
      total weight. */
  lemma {:induction false} TotalScaled(ts: seq<ColorAccumulator>, ks: seq<int>, n: nat, p: Pixel)
    requires |ts| == |ks| && n <= |ts|
    requires forall g :: 0 <= g < |ts| ==> ts[g] == p.Scale(ks[g])
    ensures Total(ts, n) == p.Scale(Weight(ks, n))
    decreases n
  {
    if n > 0 {
      TotalScaled(ts, ks, n - 1, p);
      ScalePlus(p, Weight(ks, n - 1), ks[n - 1]);
    }
  }

  /** Scaling distributes over the weights. */
  lemma ScalePlus(p: Pixel, a: int, b: int)
    ensures p.Scale(a).Plus(p.Scale(b)) == p.Scale(a + b)
  {
    assert a * p.red + b * p.red == (a + b) * p.red;
    assert a * p.green + b * p.green == (a + b) * p.green;
    assert a * p.blue + b * p.blue == (a + b) * p.blue;
  }

  /** Terms `lo` up to `hi` are all zero. */
  predicate ZeroBetween(ts: seq<ColorAccumulator>, lo: nat, hi: nat)
    requires lo <= hi <= |ts|
  {
    forall g :: lo <= g < hi ==> ts[g] == Zero
  }

  /** Every term but terms `g1` and `g2` is zero. */
  predicate ZeroElsewhere(ts: seq<ColorAccumulator>, g1: int, g2: int)
  {
    forall g :: 0 <= g < |ts| && g != g1 && g != g2 ==> ts[g] == Zero
  }

  /** Zero terms leave a sum as it was. */
  lemma {:induction false} TotalZeros(ts: seq<ColorAccumulator>, lo: nat, n: nat)
    requires lo <= n <= |ts| && ZeroBetween(ts, lo, n)
    ensures Total(ts, n) == Total(ts, lo)
    decreases n
  {
    if lo < n {
      assert ZeroBetween(ts, lo, n - 1);
      TotalZeros(ts, lo, n - 1);
      assert ts[n - 1] == Zero;
      PlusZero(Total(ts, n - 1));
    }
  }

  lemma PlusZero(a: ColorAccumulator)
    ensures a.Plus(Zero) == a && Zero.Plus(a) == a
  {
  }

  lemma PlusCommutes(a: ColorAccumulator, b: ColorAccumulator)
    ensures a.Plus(b) == b.Plus(a)
  {
  }

  /** A sum whose terms are all zero but two is those two. */
  lemma TotalSparse(ts: seq<ColorAccumulator>, g1: nat, g2: nat)
    requires g1 < |ts| && g2 < |ts| && g1 != g2
    requires ZeroElsewhere(ts, g1, g2)
    ensures Total(ts, |ts|) == ts[g1].Plus(ts[g2])
  {
    if g1 < g2 {
      TotalOrdered(ts, g1, g2);
    } else {
      TotalOrdered(ts, g2, g1);
      PlusCommutes(ts[g2], ts[g1]);
    }
  }

  lemma TotalOrdered(ts: seq<ColorAccumulator>, g1: nat, g2: nat)
    requires g1 < g2 < |ts|
    requires ZeroElsewhere(ts, g1, g2)
    ensures Total(ts, |ts|) == ts[g1].Plus(ts[g2])
  {
    assert ZeroBetween(ts, g2 + 1, |ts|);
    TotalZeros(ts, g2 + 1, |ts|);
    assert ZeroBetween(ts, g1 + 1, g2);
    TotalZeros(ts, g1 + 1, g2);
    assert ZeroBetween(ts, 0, g1);
    TotalZeros(ts, 0, g1);
    PlusZero(ts[g1]);
  }

  // ---- what the blur computes ----

  /** Every pixel has at most level `m` in channel `ch`. */
  predicate AtMostLevel(ps: seq<Pixel>, ch: int, m: byte)
    requires 0 <= ch < NumChannels
  {
    forall k :: 0 <= k < |ps| ==> ps[k].Channel(ch) <= m
  }

  /** One tap adds between nothing and its weight times the brightest level. */
  lemma TapBound(ps: seq<Pixel>, w: int, h: int, kernel: seq<int>, row: int, col: int, g: int, ch: int, m: byte)
    requires Covers(ps, w, h) && Weights(kernel) && 0 <= g < GaussSize && 0 <= ch < NumChannels
    requires AtMostLevel(ps, ch, m)
    ensures 0 <= Tap(ps, w, h, kernel, row, col, g).Channel(ch) <= kernel[g] * m
  {
    var i, j := TapRow(row, g), TapCol(col, g);
    if 0 <= j < w && 0 <= i < h {
      InImage(ps, w, h, i, j);
      var v := At(ps, w, h, i, j).Channel(ch);
      assert Tap(ps, w, h, kernel, row, col, g).Channel(ch) == kernel[g] * v;
      MulLeft(kernel[g], v, m);
    }
  }

  lemma MulLeft(k: int, v: int, m: int)
    requires k >= 0 && 0 <= v <= m
    ensures 0 <= k * v <= k * m
  {
    assert k * m - k * v == k * (m - v);
  }

  /** Every tap stays within its weight times the brightest level. */
  lemma TapsWithin(ps: seq<Pixel>, w: int, h: int, kernel: seq<int>, row: int, col: int, ch: int, m: byte)
    requires Covers(ps, w, h) && Weights(kernel) && 0 <= ch < NumChannels
    requires AtMostLevel(ps, ch, m)
    ensures Within(Taps(ps, w, h, kernel, row, col), kernel, ch, m)
  {
    forall g | 0 <= g < GaussSize
      ensures 0 <= Taps(ps, w, h, kernel, row, col)[g].Channel(ch) <= kernel[g] * m
    {
      TapBound(ps, w, h, kernel, row, col, g, ch, m);
    }
  }

  /** The kernel sum never leaves `0 .. Weight(n) * m` when every pixel has
      at most level `m` in the channel. */
  lemma TapSumBounds(ps: seq<Pixel>, w: int, h: int, kernel: seq<int>, row: int, col: int,
                     n: nat, ch: int, m: byte)
    requires Covers(ps, w, h) && Weights(kernel) && n <= GaussSize && 0 <= ch < NumChannels
    requires AtMostLevel(ps, ch, m)
    ensures 0 <= TapSum(ps, w, h, kernel, row, col, n).Channel(ch) <= Weight(kernel, n) * m
  {
    TapsWithin(ps, w, h, kernel, row, col, ch, m);
    TotalBounds(Taps(ps, w, h, kernel, row, col), kernel, n, ch, m);
  }

  /** No channel of the blur wraps around: the result is the exact quotient
      of the kernel sum, and it is at most the brightest level of that
      channel in the image. */
  lemma BlurBounded(ps: seq<Pixel>, w: int, h: int, row: int, col: int, ch: int, m: byte)
    requires Covers(ps, w, h) && 0 <= ch < NumChannels
    requires forall q :: 0 <= q < |ps| ==> ps[q].Channel(ch) <= m
    ensures Blur(ps, w, h, row, col).Channel(ch)
            == TapSum(ps, w, h, Kernel, row, col, GaussSize).Channel(ch) / GaussNorm
    ensures Blur(ps, w, h, row, col).Channel(ch) <= m
  {
    KernelNormalised();
    TapSumBounds(ps, w, h, Kernel, row, col, GaussSize, ch, m);
    QuotientChannel(TapSum(ps, w, h, Kernel, row, col, GaussSize), ch, m);
  }

  /** A channel of at most `273 * m` divides to at most `m`, as Dafny's
      division does. */
  lemma QuotientChannel(a: ColorAccumulator, ch: int, m: byte)
    requires 0 <= ch < NumChannels && 0 <= a.Channel(ch) <= GaussNorm * m
    ensures Quotient(a, GaussNorm).Channel(ch) == a.Channel(ch) / GaussNorm <= m
    ensures FromAccumulator(Quotient(a, GaussNorm)).Channel(ch) == a.Channel(ch) / GaussNorm
  {
    var x := a.Channel(ch);
    TruncAgrees(x, GaussNorm);
    assert Quotient(a, GaussNorm).Channel(ch) == x / GaussNorm;
  }

  /** Every pixel is `p`. */
  predicate Uniform(ps: seq<Pixel>, p: Pixel)
  {
    forall k :: 0 <= k < |ps| ==> ps[k] == p
  }

  /** Around a position at least two rows and columns away from every edge,
      all 25 taps fall inside the image, so in a uniform image each tap is
      the pixel scaled by its weight. */
  lemma TapsUniform(ps: seq<Pixel>, w: int, h: int, kernel: seq<int>, row: int, col: int, p: Pixel)
    requires Covers(ps, w, h) && |kernel| == GaussSize
    requires 2 <= row < h - 2 && 2 <= col < w - 2
    requires Uniform(ps, p)
    ensures forall g :: 0 <= g < GaussSize ==> Taps(ps, w, h, kernel, row, col)[g] == p.Scale(kernel[g])
  {
    forall g | 0 <= g < GaussSize
      ensures Taps(ps, w, h, kernel, row, col)[g] == p.Scale(kernel[g])
    {
      InImage(ps, w, h, TapRow(row, g), TapCol(col, g));
    }
  }

  /** The blur leaves a uniform image unchanged away from its edges: the
      kernel is normalised. */
  lemma BlurUniform(ps: seq<Pixel>, w: int, h: int, row: int, col: int, p: Pixel)
    requires Covers(ps, w, h)
    requires forall q :: 0 <= q < |ps| ==> ps[q] == p
    requires 2 <= row < h - 2 && 2 <= col < w - 2
    ensures Blur(ps, w, h, row, col) == p
  {
    KernelNormalised();
    TapsUniform(ps, w, h, Kernel, row, col, p);
    TotalScaled(Taps(ps, w, h, Kernel, row, col), Kernel, GaussSize, p);
    ScaleByNorm(p);
  }

  lemma ScaleByNorm(p: Pixel)
    ensures FromAccumulator(Quotient(p.Scale(GaussNorm), GaussNorm)) == p
  {
    var a := p.Scale(GaussNorm);
    TruncAgrees(a.red, GaussNorm);
    TruncAgrees(a.green, GaussNorm);
    TruncAgrees(a.blue, GaussNorm);
  }

  /** Near an edge the blur darkens a uniform image: a tap falls outside
      (the first one near the top or left edge, the last one near the
      bottom or right edge), and the division by the full norm keeps the
      weight it would have added. Every level of at least 1 drops. */
  lemma BlurEdgeDarkens(ps: seq<Pixel>, w: int, h: int, row: int, col: int, p: Pixel, ch: int)
    requires Covers(ps, w, h)
    requires forall q :: 0 <= q < |ps| ==> ps[q] == p
    requires 0 <= row < h && 0 <= col < w && (row < 2 || col < 2 || row >= h - 2 || col >= w - 2)
    requires 0 <= ch < NumChannels && p.Channel(ch) >= 1
    ensures Blur(ps, w, h, row, col).Channel(ch) < p.Channel(ch)
  {
    var v := p.Channel(ch);
    KernelNormalised();
    var ts := Taps(ps, w, h, Kernel, row, col);
    var missing := if row < 2 || col < 2 then 0 else GaussSize - 1;
    assert ts[missing] == Zero;
    TapsWithin(ps, w, h, Kernel, row, col, ch, v);
    TotalShort(ts, Kernel, GaussSize, ch, v, missing);
    BlurBounded(ps, w, h, row, col, ch, v);
    ShortQuotient(Total(ts, GaussSize).Channel(ch), v, Weight(Kernel, GaussSize));
  }

  lemma ShortQuotient(x: int, v: int, total: int)
    requires v >= 1 && 0 <= x && x + v <= total * v && total == GaussNorm
    ensures x / GaussNorm < v
  {
  }

  /** On a uniform image of at least 5 x 5 pixels whose level in a channel
      is at least 1, the corner blurs darker than the pixel two rows and
      columns in, which keeps the level. */
  lemma CornerDarkerThanInterior(ps: seq<Pixel>, w: int, h: int, p: Pixel, ch: int)
    requires Covers(ps, w, h) && w >= 5 && h >= 5
    requires forall q :: 0 <= q < |ps| ==> ps[q] == p
    requires 0 <= ch < NumChannels && p.Channel(ch) >= 1
    ensures Blur(ps, w, h, 0, 0).Channel(ch) < Blur(ps, w, h, 2, 2).Channel(ch) == p.Channel(ch)
  {
    BlurEdgeDarkens(ps, w, h, 0, 0, p, ch);
    BlurUniform(ps, w, h, 2, 2, p);
  }

  /** The window positions inside the image around `(row, col)`. */
  predicate InWindow(w: int, h: int, row: int, col: int, r: int, c: int)
  {
    0 <= r < h && 0 <= c < w && row - 2 <= r <= row + 2 && col - 2 <= c <= col + 2
  }

  /** The kernel tap that reads row `r`, column `c` around `(row, col)`. */
  function TapOf(row: int, col: int, r: int, c: int): int
  {
    (r - row + 2) * 5 + (c - col + 2)
  }

  /** A tap reads one window position only. */
  lemma TapOfUnique(row: int, col: int, r: int, c: int, g: int)
    requires row - 2 <= r <= row + 2 && col - 2 <= c <= col + 2 && 0 <= g < GaussSize
    ensures TapOf(row, col, r, c) == g <==> r == TapRow(row, g) && c == TapCol(col, g)
  {
  }

  /** Every window position around `(row, col)` other than `(r1, c1)` and
      `(r2, c2)` holds a black pixel. */
  ghost predicate BlackAround(ps: seq<Pixel>, w: int, h: int, row: int, col: int, r1: int, c1: int, r2: int, c2: int)
    requires Covers(ps, w, h)
  {
    forall r, c :: InWindow(w, h, row, col, r, c) && (r != r1 || c != c1) && (r != r2 || c != c2)
      ==> At(ps, w, h, r, c) == Black
  }

  /** The tap that reads a window position inside the image adds that
      pixel times its weight. */
  lemma TapReads(ps: seq<Pixel>, w: int, h: int, kernel: seq<int>, row: int, col: int, r: int, c: int)
    requires Covers(ps, w, h) && |kernel| == GaussSize && InWindow(w, h, row, col, r, c)
    ensures 0 <= TapOf(row, col, r, c) < GaussSize
    ensures Tap(ps, w, h, kernel, row, col, TapOf(row, col, r, c))
            == At(ps, w, h, r, c).Scale(kernel[TapOf(row, col, r, c)])
  {
    TapOfUnique(row, col, r, c, TapOf(row, col, r, c));
  }

  /** A tap that reads neither `(r1, c1)` nor `(r2, c2)` in a window that is
      black elsewhere adds nothing. */
  lemma TapBlack(ps: seq<Pixel>, w: int, h: int, kernel: seq<int>, row: int, col: int, g: int,
                 r1: int, c1: int, r2: int, c2: int)
    requires Covers(ps, w, h) && |kernel| == GaussSize && 0 <= g < GaussSize
    requires InWindow(w, h, row, col, r1, c1) && InWindow(w, h, row, col, r2, c2)
    requires g != TapOf(row, col, r1, c1) && g != TapOf(row, col, r2, c2)
    requires BlackAround(ps, w, h, row, col, r1, c1, r2, c2)
    ensures Tap(ps, w, h, kernel, row, col, g) == Zero
  {
    var i, j := TapRow(row, g), TapCol(col, g);
    TapOfUnique(row, col, r1, c1, g);
    TapOfUnique(row, col, r2, c2, g);
    if 0 <= j < w && 0 <= i < h {
      assert InWindow(w, h, row, col, i, j);
      ScaleBlack(kernel[g]);
    }
  }

  lemma ScaleBlack(k: int)
    ensures Black.Scale(k) == Zero
  {
  }

  /** The blur around `(row, col)` of a window holding at most two pixels
      that are not black: those two, each weighted by the kernel entry at
      its offset, divided by the norm. */
  lemma SparseBlur(ps: seq<Pixel>, w: int, h: int, row: int, col: int, r1: int, c1: int, r2: int, c2: int)
    requires Covers(ps, w, h)
    requires InWindow(w, h, row, col, r1, c1) && InWindow(w, h, row, col, r2, c2)
    requires r1 != r2 || c1 != c2
    requires forall r, c :: InWindow(w, h, row, col, r, c) && (r != r1 || c != c1) && (r != r2 || c != c2)
               ==> At(ps, w, h, r, c) == Black
    ensures 0 <= TapOf(row, col, r1, c1) < GaussSize && 0 <= TapOf(row, col, r2, c2) < GaussSize
    ensures Blur(ps, w, h, row, col)
            == FromAccumulator(Quotient(At(ps, w, h, r1, c1).Scale(Kernel[TapOf(row, col, r1, c1)])
                                          .Plus(At(ps, w, h, r2, c2).Scale(Kernel[TapOf(row, col, r2, c2)])),
                                        GaussNorm))
  {
    assert BlackAround(ps, w, h, row, col, r1, c1, r2, c2);
    TapSumSparse(ps, w, h, Kernel, row, col, r1, c1, r2, c2);
  }

  /** The kernel sum of such a window is those two pixels, each weighted by
      the kernel entry at its offset. */
  lemma TapSumSparse(ps: seq<Pixel>, w: int, h: int, kernel: seq<int>, row: int, col: int,
                     r1: int, c1: int, r2: int, c2: int)
    requires Covers(ps, w, h) && |kernel| == GaussSize
    requires InWindow(w, h, row, col, r1, c1) && InWindow(w, h, row, col, r2, c2)
    requires r1 != r2 || c1 != c2
    requires BlackAround(ps, w, h, row, col, r1, c1, r2, c2)
    ensures 0 <= TapOf(row, col, r1, c1) < GaussSize && 0 <= TapOf(row, col, r2, c2) < GaussSize
    ensures TapSum(ps, w, h, kernel, row, col, GaussSize)
            == At(ps, w, h, r1, c1).Scale(kernel[TapOf(row, col, r1, c1)])
               .Plus(At(ps, w, h, r2, c2).Scale(kernel[TapOf(row, col, r2, c2)]))
  {
    var ts := Taps(ps, w, h, kernel, row, col);
    var g1, g2 := TapOf(row, col, r1, c1), TapOf(row, col, r2, c2);
    TapReads(ps, w, h, kernel, row, col, r1, c1);
    TapReads(ps, w, h, kernel, row, col, r2, c2);
    TapsBlack(ps, w, h, kernel, row, col, r1, c1, r2, c2);
    TotalSparse(ts, g1, g2);
  }

  /** Every tap but the two that read `(r1, c1)` and `(r2, c2)` adds nothing. */
  lemma TapsBlack(ps: seq<Pixel>, w: int, h: int, kernel: seq<int>, row: int, col: int,
                  r1: int, c1: int, r2: int, c2: int)
    requires Covers(ps, w, h) && |kernel| == GaussSize
    requires InWindow(w, h, row, col, r1, c1) && InWindow(w, h, row, col, r2, c2)
    requires BlackAround(ps, w, h, row, col, r1, c1, r2, c2)
    ensures forall g :: 0 <= g < GaussSize && g != TapOf(row, col, r1, c1) && g != TapOf(row, col, r2, c2)
              ==> Taps(ps, w, h, kernel, row, col)[g] == Zero
  {
    forall g | 0 <= g < GaussSize && g != TapOf(row, col, r1, c1) && g != TapOf(row, col, r2, c2)
      ensures Taps(ps, w, h, kernel, row, col)[g] == Zero
    {
      TapBlack(ps, w, h, kernel, row, col, g, r1, c1, r2, c2);
    }
  }
}
