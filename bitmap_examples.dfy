/** The scenarios of the bitmap unit tests, run on the model of each
    layout: the operations' contracts decide the expected results. */
module BitmapExamples {
  import opened Machine
  import opened Results
  import opened FileErrors
  import opened Pixels
  import opened RasterCodec
  import opened Histograms
  import opened Transforms
  import opened Aos
  import opened Soa

  // ---- array of structures ----

  /** A default-constructed bitmap is 0 x 0. */
  method AosConstructExample() returns (width: int32, height: int32)
    ensures width == 0 && height == 0
  {
    var bm := new BitmapAos();
    width := bm.Width();
    height := bm.Height();
  }

  /** Reading a file that cannot be opened throws and leaves the bitmap
      0 x 0. */
  method AosReadMissingExample(bytes: seq<byte>) returns (outcome: Outcome<ReadError>, width: int32, height: int32)
    ensures outcome == Fail(FileFailure(CannotOpen))
    ensures width == 0 && height == 0
  {
    var bm := new BitmapAos();
    outcome := bm.Read(InputFile(false, bytes));
    width := bm.Width();
    height := bm.Height();
  }

  /** A bitmap read from a file, written out and read back into a new
      bitmap compares equal to the first. */
  method AosWriteExample(file: InputFile) returns (equal: bool)
    requires ReadImage(file).Success?
    ensures equal
  {
    var bm := AosReadFile(file);
    var written := bm.Write(true);
    ReadWriteRead(file);
    var copy := AosReadFile(InputFile(true, written.value));
    equal := bm.Value() == copy.Value();
  }

  /** A new bitmap that reads a file successfully holds the image read. */
  method AosReadFile(file: InputFile) returns (bm: BitmapAos)
    requires ReadImage(file).Success?
    ensures fresh(bm) && bm.Valid() && bm.Value() == ReadImage(file).value
  {
    bm := new BitmapAos();
    var outcome := bm.Read(file);
    assert [] + ReadImage(file).value.pixels == ReadImage(file).value.pixels;
  }

  /** Writing a bitmap read from a file to a file that cannot be opened
      throws. */
  method AosWriteInvalidExample(file: InputFile) returns (r: Result<seq<byte>, FileErrorKind>)
    requires ReadImage(file).Success?
    ensures r == Failure(CannotOpen)
  {
    var bm := new BitmapAos();
    var outcome := bm.Read(file);
    r := bm.Write(false);
  }

  /** After `to_gray`, `is_gray` holds, whatever was read. */
  method AosToGrayExample(file: InputFile, gray: GrayLevel) returns (b: bool)
    ensures b
  {
    var bm := new BitmapAos();
    var outcome := bm.Read(file);
    ghost var before := bm.pixels;
    bm.ToGray(gray);
    GrayImageIsGray(before, gray);
    b := bm.IsGray();
  }

  /** The histogram of a 4 x 4 bitmap with five pixels of red level 128,
      two of them also of green level 127. */
  method AosHistogramExample() returns (red128: int, red0: int, green127: int, green0: int, blue0: int)
    ensures red128 == 5 && red0 == 11 && green127 == 2 && green0 == 14 && blue0 == 16
  {
    var bm := HistogramTestBitmap();
    var h := bm.GenerateHistogram();
    HistogramTestCounts();
    red128 := h.RedFrequency(128);
    red0 := h.RedFrequency(0);
    green127 := h.GreenFrequency(127);
    green0 := h.GreenFrequency(0);
    blue0 := h.BlueFrequency(0);
  }

  /** The bitmap of the histogram test. */
  method HistogramTestBitmap() returns (bm: BitmapAos)
    ensures fresh(bm) && bm.Valid() && bm.header.width == 4 && bm.header.height == 4
    ensures bm.pixels == HistogramTestRaster()
  {
    bm := AosBlank(4, 16);
    var red, mixed := FromRgb(128, 0, 0), FromRgb(128, 127, 0);
    ghost var p0 := bm.pixels;
    assert bm.PixelIndex(0, 0) == 0;
    bm.SetPixel(0, 0, red);
    ghost var p1 := bm.pixels;
    assert bm.PixelIndex(1, 1) == 5;
    bm.SetPixel(1, 1, red);
    ghost var p2 := bm.pixels;
    assert bm.PixelIndex(2, 2) == 10;
    bm.SetPixel(2, 2, red);
    ghost var p3 := bm.pixels;
    assert bm.PixelIndex(3, 3) == 15;
    bm.SetPixel(3, 3, red);
    ghost var p4 := bm.pixels;
    assert bm.PixelIndex(0, 0) == 0;
    bm.SetPixel(0, 0, mixed);
    ghost var p5 := bm.pixels;
    assert bm.PixelIndex(0, 3) == 3;
    bm.SetPixel(0, 3, mixed);
    HistogramTestPainted(p0, p1, p2, p3, p4, p5, bm.pixels);
  }

  /** A new all-black bitmap of `side` x `side` pixels. */
  method AosBlank(side: int32, n: nat) returns (bm: BitmapAos)
    requires n == side * side
    ensures fresh(bm) && bm.Valid() && bm.header.width == side && bm.header.height == side
    ensures bm.pixels == seq(n, _ => Black)
  {
    bm := new BitmapAos.Sized(side, side);
  }

  /** The six `set_pixel` calls of the histogram test paint its raster. */
  lemma HistogramTestPainted(p0: seq<Pixel>, p1: seq<Pixel>, p2: seq<Pixel>, p3: seq<Pixel>,
                             p4: seq<Pixel>, p5: seq<Pixel>, p6: seq<Pixel>)
    requires p0 == seq(16, _ => Black)
    requires p1 == p0[0 := FromRgb(128, 0, 0)] && p2 == p1[5 := FromRgb(128, 0, 0)]
    requires p3 == p2[10 := FromRgb(128, 0, 0)] && p4 == p3[15 := FromRgb(128, 0, 0)]
    requires p5 == p4[0 := FromRgb(128, 127, 0)] && p6 == p5[3 := FromRgb(128, 127, 0)]
    ensures p6 == HistogramTestRaster()
  {
  }

  /** The raster of the histogram test: five pixels of red level 128 on the
      diagonal and in the top right corner, two of them of green level 127. */
  function HistogramTestRaster(): (ps: seq<Pixel>)
    ensures |ps| == 16
  {
    seq(16, _ => Black)[0 := FromRgb(128, 0, 0)][5 := FromRgb(128, 0, 0)][10 := FromRgb(128, 0, 0)]
      [15 := FromRgb(128, 0, 0)][0 := FromRgb(128, 127, 0)][3 := FromRgb(128, 127, 0)]
  }

  /** The counters the test inspects. */
  lemma HistogramTestCounts()
    ensures var c := HistogramOf(HistogramTestRaster()[..16]);
            && c[RedChannel][128] == 5 && c[RedChannel][0] == 11 && c[GreenChannel][127] == 2
            && c[GreenChannel][0] == 14 && c[BlueChannel][0] == 16
  {
    assert HistogramTestRaster()[..16] == HistogramTestRaster();
    HistogramTestCount(RedChannel, 128);
    HistogramTestCount(RedChannel, 0);
    HistogramTestCount(GreenChannel, 127);
    HistogramTestCount(GreenChannel, 0);
    HistogramTestCount(BlueChannel, 0);
  }

  /** The test raster holds eleven black pixels, three of `(128, 0, 0)` and
      two of `(128, 127, 0)`. */
  lemma HistogramTestCount(ch: int, v: int)
    requires 0 <= ch < NumChannels
    ensures Count(HistogramTestRaster(), ch, v)
            == 11 * Is(Black, ch, v) + 3 * Is(FromRgb(128, 0, 0), ch, v) + 2 * Is(FromRgb(128, 127, 0), ch, v)
  {
    var red, mixed := FromRgb(128, 0, 0), FromRgb(128, 127, 0);
    var ps0 := seq(16, _ => Black);
    CountConstant(16, Black, ch, v);
    var ps1 := ps0[0 := red];
    CountUpdate(ps0, 0, red, ch, v);
    var ps2 := ps1[5 := red];
    CountUpdate(ps1, 5, red, ch, v);
    var ps3 := ps2[10 := red];
    CountUpdate(ps2, 10, red, ch, v);
    var ps4 := ps3[15 := red];
    CountUpdate(ps3, 15, red, ch, v);
    var ps5 := ps4[0 := mixed];
    CountUpdate(ps4, 0, mixed, ch, v);
    CountUpdate(ps5, 3, mixed, ch, v);
  }

  /** One if the pixel has level `v` in channel `ch`. */
  function Is(p: Pixel, ch: int, v: int): (n: nat)
    requires 0 <= ch < NumChannels
    ensures n == 1 <==> p.Channel(ch) == v
    ensures n <= 1
  {
    if p.Channel(ch) == v then 1 else 0
  }

  /** The blur of a 10 x 10 bitmap with a gray pixel in its corner and two
      red pixels in its middle. */
  method AosGaussExample() returns (p00: Pixel, p01: Pixel, p02: Pixel, p55: Pixel)
    ensures p00 == FromRgb(19, 19, 19) && p01 == FromRgb(12, 12, 12) && p02 == FromRgb(3, 3, 3)
    ensures p55 == FromRgb(39, 0, 0)
  {
    var bm := GaussTestBitmap();
    ghost var ps := bm.pixels;
    GaussTestBlurs(ps, bm.header.width, bm.header.height);
    bm.Gauss();
    assert bm.pixels == GaussImage(ps, 10, 10);
    p00, p01, p02, p55 := ReadGaussTest(bm);
  }

  /** The bitmap of the blur test, before the blur. */
  method GaussTestBitmap() returns (bm: BitmapAos)
    ensures fresh(bm) && bm.Valid() && bm.header.width == 10 && bm.header.height == 10
    ensures GaussTestRaster(bm.pixels)
  {
    bm := AosBlank(10, 100);
    ghost var p0 := bm.pixels;
    assert bm.PixelIndex(0, 0) == 0;
    bm.SetPixel(0, 0, FromRgb(128, 128, 128));
    ghost var p1 := bm.pixels;
    assert bm.PixelIndex(5, 4) == 54;
    bm.SetPixel(5, 4, FromRgb(100, 0, 0));
    ghost var p2 := bm.pixels;
    assert bm.PixelIndex(5, 5) == 55;
    bm.SetPixel(5, 5, FromRgb(200, 0, 0));
    GaussTestPainted(p0, p1, p2, bm.pixels);
  }

  /** The four pixels the blur test reads back with `get_pixel`. */
  method ReadGaussTest(bm: BitmapAos) returns (p00: Pixel, p01: Pixel, p02: Pixel, p55: Pixel)
    requires bm.header.width == 10 && |bm.pixels| == 100
    ensures p00 == bm.pixels[0] && p01 == bm.pixels[1] && p02 == bm.pixels[2] && p55 == bm.pixels[55]
  {
    var top, middle := 0, 5;
    assert bm.PixelIndex(top, top) == 0 && bm.PixelIndex(top, top + 1) == 1 && bm.PixelIndex(top, top + 2) == 2;
    assert bm.PixelIndex(middle, middle) == 55;
    p00 := bm.GetPixel(top, top);
    p01 := bm.GetPixel(top, top + 1);
    p02 := bm.GetPixel(top, top + 2);
    p55 := bm.GetPixel(middle, middle);
  }

  /** The three `set_pixel` calls of the blur test paint its raster. */
  lemma GaussTestPainted(p0: seq<Pixel>, p1: seq<Pixel>, p2: seq<Pixel>, p3: seq<Pixel>)
    requires p0 == seq(100, _ => Black)
    requires p1 == p0[0 := FromRgb(128, 128, 128)] && p2 == p1[54 := FromRgb(100, 0, 0)]
    requires p3 == p2[55 := FromRgb(200, 0, 0)]
    ensures GaussTestRaster(p3)
  {
  }

  /** The raster of the blur test, before the blur: 10 x 10 pixels, gray
      at index 0, red at indices 54 and 55. */
  predicate GaussTestRaster(ps: seq<Pixel>)
  {
    |ps| == 100 && forall k :: 0 <= k < 100 ==> ps[k] == GaussTestPixel(k)
  }

  /** Pixel `k` of the blur test's raster. */
  function GaussTestPixel(k: int): Pixel
  {
    if k == 0 then FromRgb(128, 128, 128)
    else if k == 54 then FromRgb(100, 0, 0)
    else if k == 55 then FromRgb(200, 0, 0)
    else Black
  }

  /** The four blurred pixels the test inspects. */
  lemma GaussTestBlurs(ps: seq<Pixel>, w: int, h: int)
    requires GaussTestRaster(ps) && w == 10 && h == 10
    ensures var blurred := GaussImage(ps, w, h);
            && blurred[0] == FromRgb(19, 19, 19) && blurred[1] == FromRgb(12, 12, 12)
            && blurred[2] == FromRgb(3, 3, 3) && blurred[55] == FromRgb(39, 0, 0)
  {
    var cols: seq<int>, weights: seq<int>, levels: seq<byte> := [0, 1, 2], [41, 26, 7], [19, 12, 3];
    CornerResult(ps, w, h, cols[0], weights[0], levels[0]);
    CornerResult(ps, w, h, cols[1], weights[1], levels[1]);
    CornerResult(ps, w, h, cols[2], weights[2], levels[2]);
    var middle := 5;
    MiddlePixel(ps, w, h, middle);
  }

  /** Pixel `(0, col)` of the blurred raster, for the three columns the test reads. */
  lemma CornerResult(ps: seq<Pixel>, w: int, h: int, col: int, weight: int, level: byte)
    requires GaussTestRaster(ps) && w == 10 && h == 10
    requires (col, weight, level) == (0, 41, 19) || (col, weight, level) == (1, 26, 12)
             || (col, weight, level) == (2, 7, 3)
    ensures 0 <= col < |GaussImage(ps, w, h)| && GaussImage(ps, w, h)[col] == FromRgb(level, level, level)
  {
    CornerPixel(ps, w, h, col);
    CornerBlur(ps, w, h, col, weight, level);
  }

  /** Pixel `(0, col)` of the blurred raster is the blur around it. */
  lemma CornerPixel(ps: seq<Pixel>, w: int, h: int, col: int)
    requires GaussTestRaster(ps) && w == 10 && h == 10 && 0 <= col <= 2
    ensures 0 <= col < |GaussImage(ps, w, h)| && GaussImage(ps, w, h)[col] == Blur(ps, w, h, 0, col)
  {
    SpanIsProduct(w, h);
    PositionOfIndex(w, 0, col);
    assert Index(w, 0, col) == col;
  }

  /** Pixel `(5, 5)` of the blurred test raster. */
  lemma MiddlePixel(ps: seq<Pixel>, w: int, h: int, middle: int)
    requires GaussTestRaster(ps) && w == 10 && h == 10 && middle == 5
    ensures GaussImage(ps, w, h)[55] == FromRgb(39, 0, 0)
  {
    SpanIsProduct(w, h);
    PositionOfIndex(w, middle, middle);
    MiddleBlur(ps, w, h, middle, middle);
  }

  /** Around `(0, col)` only the gray corner pixel is not black; it is read
      by the tap of weight `weight`. */
  lemma CornerBlur(ps: seq<Pixel>, w: int, h: int, col: int, weight: int, level: byte)
    requires GaussTestRaster(ps) && w == 10 && h == 10
    requires (col, weight, level) == (0, 41, 19) || (col, weight, level) == (1, 26, 12)
             || (col, weight, level) == (2, 7, 3)
    ensures Blur(ps, w, h, 0, col) == FromRgb(level, level, level)
  {
    forall r, c | InWindow(w, h, 0, col, r, c) && (r != 0 || c != 0) && (r != 2 || c != 2)
      ensures At(ps, w, h, r, c) == Black
    {
      GaussTestAt(ps, w, h, r, c);
    }
    SparseBlur(ps, w, h, 0, col, 0, 0, 2, 2);
    GaussTestAt(ps, w, h, 0, 0);
    GaussTestAt(ps, w, h, 2, 2);
    MiddleRow();
    assert TapOf(0, col, 0, 0) == 12 - col;
    assert Kernel[TapOf(0, col, 0, 0)] == weight;
    ScaleBlack(Kernel[TapOf(0, col, 2, 2)]);
    CornerValue(weight, level);
  }

  /** Around `(row, col) = (5, 5)` only the two red pixels are not black. */
  lemma MiddleBlur(ps: seq<Pixel>, w: int, h: int, row: int, col: int)
    requires GaussTestRaster(ps) && w == 10 && h == 10 && row == 5 && col == 5
    ensures Blur(ps, w, h, row, col) == FromRgb(39, 0, 0)
  {
    forall r, c | InWindow(w, h, row, col, r, c) && (r != row || c != col - 1) && (r != row || c != col)
      ensures At(ps, w, h, r, c) == Black
    {
      GaussTestAt(ps, w, h, r, c);
    }
    SparseBlur(ps, w, h, row, col, row, col - 1, row, col);
    GaussTestAt(ps, w, h, row, col - 1);
    GaussTestAt(ps, w, h, row, col);
    MiddleRow();
    assert Kernel[TapOf(row, col, row, col - 1)] == 26 && Kernel[TapOf(row, col, row, col)] == 41;
    MiddleValue(26, 41);
  }

  /** The test raster: gray at `(0, 0)`, red at `(5, 4)` and `(5, 5)`, and
      black everywhere else. */
  lemma GaussTestAt(ps: seq<Pixel>, w: int, h: int, r: int, c: int)
    requires GaussTestRaster(ps) && w == 10 && h == 10 && 0 <= r < h && 0 <= c < w
    ensures At(ps, w, h, r, c)
            == if r == 0 && c == 0 then FromRgb(128, 128, 128)
               else if r == 5 && c == 4 then FromRgb(100, 0, 0)
               else if r == 5 && c == 5 then FromRgb(200, 0, 0)
               else Black
  {
    SpanIsProduct(w, r);
    assert At(ps, w, h, r, c) == ps[10 * r + c] == GaussTestPixel(10 * r + c);
  }

  /** The corner pixel weighted by 41, 26 or 7 and a black pixel blur to
      the gray levels the test expects. */
  lemma CornerValue(k: nat, level: byte)
    requires (k, level) == (41, 19) || (k, level) == (26, 12) || (k, level) == (7, 3)
    ensures FromAccumulator(Quotient(FromRgb(128, 128, 128).Scale(k).Plus(Zero), GaussNorm))
            == FromRgb(level, level, level)
  {
    var a := FromRgb(128, 128, 128).Scale(k).Plus(Zero);
    assert a.red == a.green == a.blue == 128 * k;
    QuotientOf(a, level, level, level);
  }

  /** The two red pixels weighted by `k1 = 26` and `k2 = 41` blur to red
      level 39. */
  lemma MiddleValue(k1: nat, k2: nat)
    requires k1 == 26 && k2 == 41
    ensures FromAccumulator(Quotient(FromRgb(100, 0, 0).Scale(k1).Plus(FromRgb(200, 0, 0).Scale(k2)), GaussNorm))
            == FromRgb(39, 0, 0)
  {
    var a := FromRgb(100, 0, 0).Scale(k1).Plus(FromRgb(200, 0, 0).Scale(k2));
    assert a.red == 10800 && a.green == 0 && a.blue == 0;
    QuotientOf(a, 39, 0, 0);
  }

  /** An accumulator of non-negative channels divides as Dafny's division. */
  lemma QuotientOf(a: ColorAccumulator, r: byte, g: byte, b: byte)
    requires a.red >= 0 && a.green >= 0 && a.blue >= 0
    requires a.red / GaussNorm == r as int && a.green / GaussNorm == g as int && a.blue / GaussNorm == b as int
    ensures FromAccumulator(Quotient(a, GaussNorm)) == FromRgb(r, g, b)
  {
    TruncAgrees(a.red, GaussNorm);
    TruncAgrees(a.green, GaussNorm);
    TruncAgrees(a.blue, GaussNorm);
  }

  /** The first three entries of the kernel's middle row. */
  lemma MiddleRow()
    ensures Kernel[10] == 7 && Kernel[11] == 26 && Kernel[12] == 41
  {
  }

  // ---- structure of arrays ----

  /** A default-constructed bitmap is 0 x 0. */
  method SoaConstructExample() returns (width: int32, height: int32)
    ensures width == 0 && height == 0
  {
    var bm := new BitmapSoa();
    width := bm.Width();
    height := bm.Height();
  }

  /** Reading a file that cannot be opened throws and leaves the bitmap
      0 x 0. */
  method SoaReadMissingExample(bytes: seq<byte>) returns (outcome: Outcome<ReadError>, width: int32, height: int32)
    ensures outcome == Fail(FileFailure(CannotOpen))
    ensures width == 0 && height == 0
  {
    var bm := new BitmapSoa();
    outcome := bm.Read(InputFile(false, bytes));
    width := bm.Width();
    height := bm.Height();
  }

  /** A bitmap read from a file, written out and read back into a new
      bitmap compares equal to the first, plane by plane. */
  method SoaWriteExample(file: InputFile) returns (equal: bool)
    requires ReadImage(file).Success?
    ensures equal
  {
    var bm := SoaReadFile(file);
    var written := bm.Write(true);
    ReadWriteRead(file);
    var copy := SoaReadFile(InputFile(true, written.value));
    MergeInjective(bm.blue, bm.green, bm.red, copy.blue, copy.green, copy.red);
    equal := bm.header == copy.header && bm.blue == copy.blue && bm.green == copy.green && bm.red == copy.red;
  }

  /** A new bitmap that reads a file successfully holds the image read. */
  method SoaReadFile(file: InputFile) returns (bm: BitmapSoa)
    requires ReadImage(file).Success?
    ensures fresh(bm) && bm.Valid() && bm.Value() == ReadImage(file).value
  {
    bm := new BitmapSoa();
    var outcome := bm.Read(file);
    assert [] + ReadImage(file).value.pixels == ReadImage(file).value.pixels;
  }

  /** Writing a bitmap read from a file to a file that cannot be opened
      throws. */
  method SoaWriteInvalidExample(file: InputFile) returns (r: Result<seq<byte>, FileErrorKind>)
    requires ReadImage(file).Success?
    ensures r == Failure(CannotOpen)
  {
    var bm := new BitmapSoa();
    var outcome := bm.Read(file);
    r := bm.Write(false);
  }

  /** After `to_gray`, `is_gray` holds for a bitmap read from a file whose
      width is not negative (`to_gray` runs to the image size, which for two
      negative dimensions exceeds the pixels read, as does the size a header
      error may leave behind). */
  method SoaToGrayExample(file: InputFile, gray: GrayLevel) returns (b: bool)
    requires ReadImage(file).Success? && ReadImage(file).value.header.width >= 0
    ensures b
  {
    var bm := SoaReadFile(file);
    ghost var before := bm.Pixels();
    ghost var n := Counted(bm.header.width, bm.header.height);
    CountedIsPixelCount(bm.header.width, bm.header.height);
    bm.ToGray(gray);
    assert before[..n] == before && before[n..] == [];
    GrayImageIsGray(before, gray);
    b := bm.IsGray();
  }

  /** The histogram of a 4 x 4 bitmap with five pixels of red level 128,
      two of them also of green level 127. */
  method SoaHistogramExample() returns (red128: int, red0: int, green127: int, green0: int, blue0: int)
    ensures red128 == 5 && red0 == 11 && green127 == 2 && green0 == 14 && blue0 == 16
  {
    var bm := SoaHistogramTestBitmap();
    var h := bm.GenerateHistogram();
    HistogramTestCounts();
    red128 := h.RedFrequency(128);
    red0 := h.RedFrequency(0);
    green127 := h.GreenFrequency(127);
    green0 := h.GreenFrequency(0);
    blue0 := h.BlueFrequency(0);
  }

  /** A new all-black bitmap of `side` x `side` pixels. */
  method SoaBlank(side: int32, n: nat) returns (bm: BitmapSoa)
    requires n == side * side
    ensures fresh(bm) && bm.Valid() && bm.header.width == side && bm.header.height == side
    ensures bm.Pixels() == seq(n, _ => Black)
  {
    bm := new BitmapSoa.Sized(side, side);
  }

  /** The bitmap of the histogram test. */
  method SoaHistogramTestBitmap() returns (bm: BitmapSoa)
    ensures fresh(bm) && bm.Valid() && bm.header.width == 4 && bm.header.height == 4
    ensures bm.Pixels() == HistogramTestRaster()
  {
    bm := SoaBlank(4, 16);
    var red, mixed := FromRgb(128, 0, 0), FromRgb(128, 127, 0);
    ghost var p0 := bm.Pixels();
    assert bm.PixelIndex(0, 0) == 0;
    bm.SetPixel(0, 0, red);
    ghost var p1 := bm.Pixels();
    assert bm.PixelIndex(1, 1) == 5;
    bm.SetPixel(1, 1, red);
    ghost var p2 := bm.Pixels();
    assert bm.PixelIndex(2, 2) == 10;
    bm.SetPixel(2, 2, red);
    ghost var p3 := bm.Pixels();
    assert bm.PixelIndex(3, 3) == 15;
    bm.SetPixel(3, 3, red);
    ghost var p4 := bm.Pixels();
    assert bm.PixelIndex(0, 0) == 0;
    bm.SetPixel(0, 0, mixed);
    ghost var p5 := bm.Pixels();
    assert bm.PixelIndex(0, 3) == 3;
    bm.SetPixel(0, 3, mixed);
    HistogramTestPainted(p0, p1, p2, p3, p4, p5, bm.Pixels());
  }

  /** The blur of a 10 x 10 bitmap with a gray pixel in its corner and two
      red pixels in its middle. */
  method SoaGaussExample() returns (p00: Pixel, p01: Pixel, p02: Pixel, p55: Pixel)
    ensures p00 == FromRgb(19, 19, 19) && p01 == FromRgb(12, 12, 12) && p02 == FromRgb(3, 3, 3)
    ensures p55 == FromRgb(39, 0, 0)
  {
    var bm := SoaGaussTestBitmap();
    ghost var ps := bm.Pixels();
    GaussTestBlurs(ps, bm.header.width, bm.header.height);
    bm.Gauss();
    assert bm.Pixels() == GaussImage(ps, 10, 10);
    p00, p01, p02, p55 := SoaReadGaussTest(bm);
  }

  /** The bitmap of the blur test, before the blur. */
  method SoaGaussTestBitmap() returns (bm: BitmapSoa)
    ensures fresh(bm) && bm.Valid() && bm.header.width == 10 && bm.header.height == 10
    ensures GaussTestRaster(bm.Pixels())
  {
    bm := SoaBlank(10, 100);
    SoaPaintGaussTest(bm);
  }

  /** The test's three `set_pixel` calls on a black 10 x 10 bitmap. */
  method SoaPaintGaussTest(bm: BitmapSoa)
    requires bm.Valid() && bm.header.width == 10 && bm.header.height == 10
    requires bm.Pixels() == seq(100, _ => Black)
    modifies bm
    ensures bm.Valid() && bm.header.width == 10 && bm.header.height == 10
    ensures GaussTestRaster(bm.Pixels())
  {
    ghost var p0 := bm.Pixels();
    assert bm.PixelIndex(0, 0) == 0;
    bm.SetPixel(0, 0, FromRgb(128, 128, 128));
    ghost var p1 := bm.Pixels();
    assert bm.PixelIndex(5, 4) == 54;
    bm.SetPixel(5, 4, FromRgb(100, 0, 0));
    ghost var p2 := bm.Pixels();
    assert bm.PixelIndex(5, 5) == 55;
    bm.SetPixel(5, 5, FromRgb(200, 0, 0));
    GaussTestPainted(p0, p1, p2, bm.Pixels());
  }


  /** The four pixels the blur test reads back with `get_pixel`. */
  method SoaReadGaussTest(bm: BitmapSoa) returns (p00: Pixel, p01: Pixel, p02: Pixel, p55: Pixel)
    requires bm.Aligned() && bm.header.width == 10 && |bm.red| == 100
    ensures p00 == bm.Pixels()[0] && p01 == bm.Pixels()[1] && p02 == bm.Pixels()[2] && p55 == bm.Pixels()[55]
  {
    var top, middle := 0, 5;
    assert bm.PixelIndex(top, top) == 0 && bm.PixelIndex(top, top + 1) == 1 && bm.PixelIndex(top, top + 2) == 2;
    assert bm.PixelIndex(middle, middle) == 55;
    p00 := bm.GetPixel(top, top);
    p01 := bm.GetPixel(top, top + 1);
    p02 := bm.GetPixel(top, top + 2);
    p55 := bm.GetPixel(middle, middle);
  }

  /** A 2 x 2 bitmap whose last pixel is red: `is_gray` as written looks at
      three pixels and reports a gray image; the loop over every pixel does
      not. */
  method SoaIsGrayAsWrittenExample() returns (asWritten: bool, corrected: bool)
    ensures asWritten && !corrected
  {
    var bm := SoaBlank(2, 4);
    var last := 1;
    assert bm.PixelIndex(last, last) == 3;
    bm.SetPixel(last, last, FromRgb(255, 0, 0));
    IsGrayAsWrittenMissesLastPixel(bm.Pixels());
    asWritten := bm.IsGrayAsWritten();
    corrected := bm.IsGray();
  }
}
