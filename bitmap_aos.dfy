/** `bitmap_aos`: a bitmap held as a header and one vector of pixels in
    row-major order (array of structures). Every operation updates the
    object in place; each is proved against the layout-independent
    functions of `RasterCodec`, `Transforms` and `Histograms`. */
module Aos {
  import opened Machine
  import opened Results
  import opened FileErrors
  import opened Pixels
  import opened BitmapHeaders
  import opened RasterCodec
  import opened Histograms
  import opened Transforms

  class BitmapAos {
    var header: Header
    var pixels: seq<Pixel>

    /** Every pixel that `(row, column)` indexing reaches is stored. */
    ghost predicate Valid()
      reads this
    {
      Covers(pixels, header.width, header.height)
    }

    /** The bitmap as a value: what the defaulted `operator==` compares. */
    function Value(): (img: Image)
      reads this
      ensures img.header == header && img.pixels == pixels
    {
      Image(header, pixels)
    }

    /** The default constructor: a default header and no pixels, so the
        bitmap is 0 x 0. */
    constructor ()
      ensures Valid()
      ensures header == DefaultHeader && pixels == []
      ensures Width() == 0 && Height() == 0
    {
      header := DefaultHeader;
      pixels := [];
    }

    /** `bitmap_aos(w, h)`: the header a `bitmap_header{w, h}` builds and
        `w * h` value-initialised pixels. */
    constructor Sized(w: int32, h: int32)
      requires w * h >= 0
      ensures Valid()
      ensures header.info == Block([0, 0], HeaderSize, w, h, 1, DefaultBitCount, 0)
      ensures header.width == w && header.height == h && header.pixelStart == HeaderSize
      ensures header.extraBuffer == [] && header.extraSize == 0
      ensures |pixels| == w * h && forall k :: 0 <= k < |pixels| ==> pixels[k] == Black
    {
      var hd := NewHeader(w, h);
      var size := w * h;
      header := hd;
      pixels := seq(size, _ => Black);
      new;
      if w > 0 && h > 0 {
        SpanIsProduct(w, h);
        assert Span(w, h) == size;
      }
    }

    function Width(): (w: int32)
      reads this
      ensures w == header.width
    {
      header.width
    }

    function Height(): (h: int32)
      reads this
      ensures h == header.height
    {
      header.height
    }

    /** `get_size()`: width first, then height. */
    function GetSize(): (size: (int32, int32))
      reads this
      ensures size.0 == header.width && size.1 == header.height
    {
      (Width(), Height())
    }

    /** `get_pixel_position(index)`: the row and column whose `index` is
        `k`, by C++ division by the width. */
    function GetPixelPosition(k: int): (p: (int, int))
      reads this
      requires header.width != 0
      ensures Index(header.width, p.0, p.1) == k
      ensures header.width > 0 && k >= 0 ==> 0 <= p.1 < header.width
    {
      Position(Width(), k)
    }

    /** `index(r, c)`. */
    function PixelIndex(r: int, c: int): (k: int)
      reads this
      ensures r >= 0 && header.width >= 0 ==> k == Span(header.width, r) + c
    {
      if r >= 0 && header.width >= 0 then
        IndexIsSpan(header.width, r, c);
        Index(Width(), r, c)
      else
        Index(Width(), r, c)
    }

    /** `get_pixel(r, c)`: the pixel at that index, which must be stored. */
    function GetPixel(r: int, c: int): (p: Pixel)
      reads this
      requires 0 <= PixelIndex(r, c) < |pixels|
      ensures Valid() && 0 <= r < header.height && 0 <= c < header.width ==>
                p == At(pixels, header.width, header.height, r, c)
    {
      pixels[PixelIndex(r, c)]
    }

    /** `set_pixel(r, c, p)`: only the pixel at that index changes. */
    method SetPixel(r: int, c: int, p: Pixel)
      requires Valid() && 0 <= PixelIndex(r, c) < |pixels|
      modifies this
      ensures Valid() && header == old(header)
      ensures pixels == old(pixels)[old(PixelIndex(r, c)) := p]
    {
      pixels := pixels[PixelIndex(r, c) := p];
    }

    /** `print_info`: the header's report. */
    function PrintInfo(): (report: string)
      reads this
      ensures report == BitmapHeaders.PrintInfo(header)
    {
      BitmapHeaders.PrintInfo(header)
    }

    /** `read`: open the file, read the header into this bitmap, refuse a
        negative image size, then append `height` rows of `width` pixels,
        skipping the padding after each row. A failure to open leaves the
        bitmap as it was; a header error leaves the header as far as `read`
        of the header got (so its size need not match the pixels any more);
        a negative size is refused after the header has been stored. */
    method Read(file: InputFile) returns (outcome: Outcome<ReadError>)
      modifies this
      ensures outcome == Pass || outcome == Fail(LengthError)
              || (old(Valid()) && header.width == old(header).width && header.height == old(header).height)
              ==> Valid()
      ensures outcome == if ReadImage(file).Success? then Pass else Fail(ReadImage(file).error)
      ensures ReadImage(file).Success? ==>
                header == ReadImage(file).value.header
                && pixels == old(pixels) + ReadImage(file).value.pixels
      ensures ReadImage(file).Failure? ==> pixels == old(pixels)
      ensures file.openable ==> header == ReadInto(old(header), file.bytes)
      ensures !file.openable ==> header == old(header)
    {
      if !file.openable {
        return Fail(FileFailure(CannotOpen));
      }
      var read := BitmapHeaders.Read(file.bytes);
      header := ReadInto(header, file.bytes);
      if read.Failure? {
        return Fail(FileFailure(read.error));
      }
      ReadIntoSucceeds(old(header), file.bytes);
      var w: int, h: int := header.width, header.height;
      if w * h < 0 {
        return Fail(LengthError);
      }
      var s := file.bytes[|Bytes(header)|..];
      assert ReadImage(file) == Success(Image(header, DecodeImage(s, header.width, header.height)));
      AppendImage(s);
      return Pass;
    }

    /** The pixel rows of `read`, appended to the pixels. */
    method AppendImage(s: seq<byte>)
      modifies this
      ensures header == old(header)
      ensures pixels == old(pixels) + DecodeImage(s, header.width, header.height)
      ensures Covers(DecodeImage(s, header.width, header.height), header.width, header.height)
    {
      pixels := AppendRows(pixels, s, header.width, header.height);
      PixelCountSpan(DecodeImage(s, header.width, header.height), header.width, header.height);
    }

    /** `write`: open the file, write the header, then for every row its
        pixels and the padding. */
    method Write(writable: bool) returns (r: Result<seq<byte>, FileErrorKind>)
      requires Valid()
      ensures r == WriteImage(Value(), writable)
    {
      if !writable {
        return Failure(CannotOpen);
      }
      var hd, ps := header, pixels;
      var head := BitmapHeaders.Write(hd, true).value;
      var rows := EncodeRaster(ps, hd.width, hd.height);
      return Success(head + rows);
    }

    /** `to_gray`: every pixel replaced, in place, by its gray pixel. */
    method ToGray(gray: GrayLevel)
      modifies this
      ensures old(Valid()) ==> Valid()
      ensures header == old(header)
      ensures pixels == GrayImage(old(pixels), gray)
    {
      ghost var original := pixels;
      var ps := pixels;
      for i := 0 to |ps|
        invariant |ps| == |original|
        invariant forall k :: 0 <= k < i ==> ps[k] == GrayImage(original, gray)[k]
        invariant forall k :: i <= k < |ps| ==> ps[k] == original[k]
      {
        ps := ps[i := ps[i].ToGrayCorrected(gray)];
      }
      pixels := ps;
    }

    /** `is_gray`: true exactly when every pixel is gray; stops at the first
        pixel that is not. */
    method IsGray() returns (b: bool)
      ensures b == AllGray(pixels)
    {
      for i := 0 to |pixels|
        invariant AllGray(pixels[..i])
      {
        if !pixels[i].IsGray() {
          assert !pixels[i].IsGray();
          return false;
        }
        assert pixels[..i + 1] == pixels[..i] + [pixels[i]];
      }
      assert pixels[..|pixels|] == pixels;
      return true;
    }

    /** `gauss`: each pixel of a copy becomes the kernel-weighted sum of the
        pixels around it in this bitmap, divided by the norm; the copy then
        replaces this bitmap. Computing a position divides by the width, so
        a bitmap with pixels needs a non-zero width. */
    method Gauss()
      requires Valid() && (|pixels| > 0 ==> header.width != 0)
      modifies this
      ensures Valid() && header == old(header)
      ensures pixels == GaussImage(old(pixels), old(header).width, old(header).height)
    {
      var ps := pixels;
      var result := ps;
      var size := GetSize();
      var w: int, h: int := size.0, size.1;
      ghost var blurred := GaussImage(ps, w, h);
      for k := 0 to |ps|
        invariant header == old(header) && pixels == old(pixels)
        invariant |result| == |ps|
        invariant forall j :: 0 <= j < k ==> result[j] == blurred[j]
      {
        var position := Position(w, k);
        var accum := Accumulate(ps, w, h, Kernel, position.0, position.1);
        var quotient := Divide(accum, GaussNorm);
        result := result[k := FromAccumulator(quotient)];
      }
      assert result == blurred;
      pixels := result;
    }

    /** `generate_histogram`: a new histogram with the first `width * height`
        pixels added in order. The loop reads that many pixels, so they must
        be stored. */
    method GenerateHistogram() returns (histo: Histogram)
      requires Valid() && header.width * header.height <= |pixels|
      ensures fresh(histo.channels) && histo.Valid()
      ensures histo.Counts() == HistogramOf(pixels[..Counted(header.width, header.height)])
    {
      histo := HistogramOfFirst(pixels, header.width * header.height);
    }

    /** `generate_histogram` with the loop bound it evidently intends, the
        number of pixels stored (`std::ssize(pixels)`, as `to_gray` and
        `is_gray` use): every stored pixel is added once, so each channel
        counts them all, and no pixel past the vector is read. */
    method GenerateHistogramCorrected() returns (histo: Histogram)
      ensures fresh(histo.channels) && histo.Valid()
      ensures histo.Counts() == HistogramOf(pixels)
      ensures forall ch :: 0 <= ch < NumChannels ==> Sum(histo.Counts()[ch]) == |pixels|
    {
      histo := HistogramOfFirst(pixels, |pixels|);
      assert pixels[..|pixels|] == pixels;
      forall ch | 0 <= ch < NumChannels
        ensures Sum(HistogramOf(pixels)[ch]) == |pixels|
      {
        HistogramTotals(pixels, ch);
      }
    }
  }

  /** The loop bound of `generate_histogram` is the number of pixels `read`
      stores except when both dimensions are negative, where it is the
      positive product and `read` stores none. */
  lemma CountedMatchesPixelCount(w: int, h: int)
    ensures Counted(w, h) == PixelCount(w, h) <==> !(w < 0 && h < 0)
  {
  }

  /** A read that passes with both dimensions negative stores no pixel,
      while the loop of `generate_histogram` runs to their positive product. */
  lemma NegativeDimensionsStoreNothing(file: InputFile)
    requires ReadImage(file).Success?
    requires ReadImage(file).value.header.width < 0 && ReadImage(file).value.header.height < 0
    ensures |ReadImage(file).value.pixels| == 0
    ensures Counted(ReadImage(file).value.header.width, ReadImage(file).value.header.height) > 0
  {
  }

  /** The header of width -2 and height -3 reads as an image of no pixels,
      and `generate_histogram` on it would add 6, indexing past the vector. */
  lemma HistogramBoundPastPixels()
    ensures var r := ReadImage(InputFile(true, Block(Magic, HeaderSize, -2, -3, 1, ExpectedBitCount, 0)));
            && r.Success? && r.value.header.width == -2 && r.value.header.height == -3
            && |r.value.pixels| == 0 && Counted(-2, -3) == 6
  {
    var file := InputFile(true, Block(Magic, HeaderSize, -2, -3, 1, ExpectedBitCount, 0));
    ReadAnyDimensions(-2, -3);
    assert ImageSize(Read(file.bytes).value) == 6;
    NegativeDimensionsStoreNothing(file);
  }

  /** The kernel loop of `gauss` around `(row, column)`: the weighted
      pixels of the taps whose column and then row fall inside the image. */
  method Accumulate(ps: seq<Pixel>, w: int, h: int, kernel: seq<int>, row: int, column: int)
    returns (accum: ColorAccumulator)
    requires Covers(ps, w, h) && |kernel| == GaussSize
    ensures accum == TapSum(ps, w, h, kernel, row, column, GaussSize)
  {
    accum := Zero;
    for g := 0 to GaussSize
      invariant accum == TapSum(ps, w, h, kernel, row, column, g)
    {
      TapSumNext(ps, w, h, kernel, row, column, g);
      var j := TapCol(column, g);
      if j < 0 || j >= w { continue; }
      var i := TapRow(row, g);
      if i < 0 || i >= h { continue; }
      var weight := kernel[g];
      IndexIsSpan(w, i, j);
      InImage(ps, w, h, i, j);
      accum := accum.Plus(ps[Index(w, i, j)].Scale(weight));
    }
  }

  /** The loop of `generate_histogram`: a new histogram with the first
      `count` pixels of `ps` added in order. */
  method HistogramOfFirst(ps: seq<Pixel>, count: int) returns (histo: Histogram)
    requires count <= |ps|
    ensures fresh(histo.channels) && histo.Valid()
    ensures histo.Counts() == HistogramOf(ps[..if count > 0 then count else 0])
  {
    histo := new Histogram();
    HistogramOfEmpty();
    var n: nat := if count > 0 then count else 0;
    var i := 0;
    while i < n
      invariant 0 <= i <= n
      invariant fresh(histo.channels) && histo.Valid()
      invariant histo.Counts() == HistogramOf(ps[..i])
    {
      HistogramStep(ps, i);
      histo.AddColor(ps[i]);
      i := i + 1;
    }
    assert i == n;
  }

  /** The pixel loop of `read`: `h` rows of `w` pixels pushed onto the
      vector `ps`, the padding after each row skipped. */
  method AppendRows(ps: seq<Pixel>, s: seq<byte>, w: int, h: int) returns (qs: seq<Pixel>)
    ensures qs == ps + DecodeImage(s, w, h)
  {
    var cols: nat := if w > 0 then w else 0;
    var extra := RowExtra(w);
    var skip: nat := if extra != 0 then 4 - extra else 0;
    assert skip == ReadSkip(w);
    var stream := s;
    qs := ps;
    var r := 0;
    while r < h
      invariant 0 <= r <= if h > 0 then h else 0
      invariant qs == ps + DecodeRows(s, cols, skip, r)
      invariant stream == RowsConsumed(s, 3 * cols + skip, r)
    {
      ghost var before := qs;
      qs, stream := AppendRow(qs, stream, w);
      if extra != 0 {
        stream := Drop(stream, 4 - extra);
      } else {
        DropNothing(stream);
      }
      RowRead(s, cols, skip, r, ps, before, qs);
      RowSkipped(s, cols, skip, r, stream);
      r := r + 1;
    }
    AppendDecoded(s, w, h, cols, skip);
  }

  /** The column loop of `read`: the `w` pixels of one row appended; what is
      left of the stream comes back. */
  method AppendRow(ps: seq<Pixel>, s: seq<byte>, w: int) returns (qs: seq<Pixel>, stream: seq<byte>)
    ensures var cols := if w > 0 then w else 0;
            && qs == ps + DecodeRow(s, cols)
            && stream == Drop(s, 3 * cols)
  {
    ghost var cols := if w > 0 then w else 0;
    qs, stream := ps, s;
    var c := 0;
    while c < w
      invariant 0 <= c <= cols
      invariant qs == ps + DecodeRow(s, c)
      invariant stream == Drop(s, 3 * c)
    {
      var p := ReadPixel(stream, 0);
      DecodeRowSnoc(s, c);
      Assoc3(ps, DecodeRow(s, c), [p]);
      qs := qs + [p];
      DropDrop(s, 3 * c, 3);
      stream := Drop(stream, 3);
      c := c + 1;
    }
  }

  /** The row loop of `write`: for each of the `h` rows its pixels and then
      the row padding. */
  method EncodeRaster(ps: seq<Pixel>, w: int, h: int) returns (out: seq<byte>)
    requires Covers(ps, w, h)
    ensures out == EncodeImage(ps, w, h)
  {
    var padding := Padding(w);
    var cols: nat := if w > 0 then w else 0;
    var rows: nat := if h > 0 then h else 0;
    SpanIsProduct(cols, rows);
    assert Span(cols, rows) <= |ps|;
    out := [];
    var row := 0;
    RowsLeftStart(ps, cols, padding, rows);
    while row < h
      invariant 0 <= row <= rows
      invariant RowsLeft(ps, cols, padding, rows, row, out)
    {
      SpanGrows(cols, row, rows);
      var bytes := WriteRow(ps, w, row);
      RowWritten(ps, cols, padding, rows, row, out, bytes);
      out := out + bytes + Zeros(padding);
      row := row + 1;
    }
    RowsLeftEnd(ps, cols, padding, rows, out);
  }

  /** The pixel loop of `write` for row `row` of a raster of width `w`:
      the bytes of the pixels `index(row, c)` for `c` below the width, in
      order. */
  method WriteRow(ps: seq<Pixel>, w: int, row: nat) returns (out: seq<byte>)
    requires var cols := if w > 0 then w else 0; Span(cols, row) + cols <= |ps|
    ensures var cols := if w > 0 then w else 0;
            out == RowBytes(ps[Span(cols, row)..Span(cols, row) + cols])
  {
    var cols: nat := if w > 0 then w else 0;
    ghost var start := Span(cols, row);
    out := [];
    var c := 0;
    while c < w
      invariant 0 <= c <= cols
      invariant out == RowBytes(ps[start..start + c])
    {
      IndexIsSpan(w, row, c);
      var p := ps[Index(w, row, c)];
      PixelWritten(ps, start, c, out);
      out := out + p.Bytes();
      c := c + 1;
    }
  }
}
