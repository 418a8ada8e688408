/** `bitmap_soa`: a bitmap held as a header and one vector of levels per
    channel (structure of arrays), pixel `k` being the `k`-th entry of the
    three planes. Every operation updates the object in place; each is
    proved against the same layout-independent functions as the array of
    structures, through the pixels the three planes spell. */
module Soa {
  import opened Machine
  import opened Results
  import opened FileErrors
  import opened Pixels
  import opened BitmapHeaders
  import opened RasterCodec
  import opened Histograms
  import opened Transforms

  // ---- planes and pixels ----

  /** The pixels three planes of equal length spell: pixel `k` takes entry
      `k` of every plane. */
  function Merge(blue: seq<byte>, green: seq<byte>, red: seq<byte>): (ps: seq<Pixel>)
    requires |blue| == |green| == |red|
    ensures |ps| == |red|
  {
    seq(|red|, k requires 0 <= k < |red| => Pixel(blue[k], green[k], red[k]))
  }

  /** The plane of channel `ch`: that level of every pixel, in order. */
  function Plane(ps: seq<Pixel>, ch: int): (levels: seq<byte>)
    requires 0 <= ch < NumChannels
    ensures |levels| == |ps|
  {
    seq(|ps|, k requires 0 <= k < |ps| => ps[k].Channel(ch))
  }

  /** Splitting pixels into planes and merging them back gives the pixels. */
  lemma MergePlanes(ps: seq<Pixel>)
    ensures Merge(Plane(ps, BlueChannel), Plane(ps, GreenChannel), Plane(ps, RedChannel)) == ps
  {
    var qs := Merge(Plane(ps, BlueChannel), Plane(ps, GreenChannel), Plane(ps, RedChannel));
    forall k | 0 <= k < |ps|
      ensures qs[k] == ps[k]
    {
    }
  }

  /** Merging planes and splitting the pixels again gives the planes. */
  lemma PlanesMerge(blue: seq<byte>, green: seq<byte>, red: seq<byte>)
    requires |blue| == |green| == |red|
    ensures Plane(Merge(blue, green, red), BlueChannel) == blue
    ensures Plane(Merge(blue, green, red), GreenChannel) == green
    ensures Plane(Merge(blue, green, red), RedChannel) == red
  {
  }

  /** Two bitmaps with equal headers are equal exactly when their planes are:
      comparing the planes, as the defaulted `operator==` does, is comparing
      the pixels they spell. */
  lemma MergeInjective(b1: seq<byte>, g1: seq<byte>, r1: seq<byte>, b2: seq<byte>, g2: seq<byte>, r2: seq<byte>)
    requires |b1| == |g1| == |r1| && |b2| == |g2| == |r2|
    ensures Merge(b1, g1, r1) == Merge(b2, g2, r2) <==> b1 == b2 && g1 == g2 && r1 == r2
  {
    if Merge(b1, g1, r1) == Merge(b2, g2, r2) {
      PlanesMerge(b1, g1, r1);
      PlanesMerge(b2, g2, r2);
    }
  }

  /** Writing a pixel's three levels at entry `k` of the planes sets pixel `k`. */
  lemma MergeUpdate(blue: seq<byte>, green: seq<byte>, red: seq<byte>, k: int, p: Pixel)
    requires |blue| == |green| == |red| && 0 <= k < |red|
    ensures Merge(blue[k := p.blue], green[k := p.green], red[k := p.red]) == Merge(blue, green, red)[k := p]
  {
  }

  /** Pushing a pixel's three levels onto the planes appends the pixel. */
  lemma MergeSnoc(blue: seq<byte>, green: seq<byte>, red: seq<byte>, p: Pixel)
    requires |blue| == |green| == |red|
    ensures Merge(blue + [p.blue], green + [p.green], red + [p.red]) == Merge(blue, green, red) + [p]
  {
  }

  class BitmapSoa {
    var header: Header
    /** `pixels[blue_channel]`, `pixels[green_channel]`, `pixels[red_channel]`. */
    var blue: seq<byte>
    var green: seq<byte>
    var red: seq<byte>

    /** The three planes hold the same number of pixels. */
    predicate Aligned()
      reads this
    {
      |blue| == |green| == |red|
    }

    /** The pixels the planes spell. */
    function Pixels(): (ps: seq<Pixel>)
      reads this
      requires Aligned()
      ensures |ps| == |red|
    {
      Merge(blue, green, red)
    }

    /** The planes are aligned and every pixel that `(row, column)` indexing
        reaches is stored. */
    ghost predicate Valid()
      reads this
    {
      Aligned() && Covers(Pixels(), header.width, header.height)
    }

    /** The bitmap as a value: its header and the pixels of its planes. */
    function Value(): (img: Image)
      reads this
      requires Aligned()
      ensures img.header == header && img.pixels == Pixels()
    {
      Image(header, Pixels())
    }

    /** The default constructor: a default header and empty planes, so the
        bitmap is 0 x 0. */
    constructor ()
      ensures Valid()
      ensures header == DefaultHeader && blue == green == red == []
      ensures Width() == 0 && Height() == 0
    {
      header := DefaultHeader;
      blue, green, red := [], [], [];
    }

    /** `bitmap_soa(w, h)`: the header a `bitmap_header{w, h}` builds and
        three planes of `image_size()` zero levels. */
    constructor Sized(w: int32, h: int32)
      requires w * h >= 0
      ensures Valid()
      ensures header.info == Block([0, 0], HeaderSize, w, h, 1, DefaultBitCount, 0)
      ensures header.width == w && header.height == h && header.pixelStart == HeaderSize
      ensures header.extraBuffer == [] && header.extraSize == 0
      ensures |Pixels()| == w * h && forall k :: 0 <= k < |Pixels()| ==> Pixels()[k] == Black
    {
      var hd := NewHeader(w, h);
      var size := ImageSize(hd);
      header := hd;
      blue, green, red := seq(size, _ => 0), seq(size, _ => 0), seq(size, _ => 0);
      new;
      if w > 0 && h > 0 {
        SpanIsProduct(w, h);
        assert Span(w, h) == size;
      }
    }

    function Width(): (w: int32)
      reads this
      ensures w == header.width
    {
      header.width
    }

    function Height(): (h: int32)
      reads this
      ensures h == header.height
    {
      header.height
    }

    /** `get_size()`: width first, then height. */
    function GetSize(): (size: (int32, int32))
      reads this
      ensures size.0 == header.width && size.1 == header.height
    {
      (Width(), Height())
    }

    /** `get_pixel_position(index)`: the row and column whose `index` is
        `k`, by C++ division by the width. */
    function GetPixelPosition(k: int): (p: (int, int))
      reads this
      requires header.width != 0
      ensures Index(header.width, p.0, p.1) == k
      ensures header.width > 0 && k >= 0 ==> 0 <= p.1 < header.width
    {
      Position(Width(), k)
    }

    /** `index(r, c)`. */
    function PixelIndex(r: int, c: int): (k: int)
      reads this
      ensures r >= 0 && header.width >= 0 ==> k == Span(header.width, r) + c
    {
      if r >= 0 && header.width >= 0 then
        IndexIsSpan(header.width, r, c);
        Index(Width(), r, c)
      else
        Index(Width(), r, c)
    }

    /** `get_pixel(i)`: the pixel made of entry `i` of the three planes. */
    function PixelAt(i: int): (p: Pixel)
      reads this
      requires Aligned() && 0 <= i < |red|
      ensures p == Pixels()[i]
      ensures p.red == red[i] && p.green == green[i] && p.blue == blue[i]
    {
      FromRgb(red[i], green[i], blue[i])
    }

    /** `get_pixel(r, c)`: the pixel at that index, which must be stored. */
    function GetPixel(r: int, c: int): (p: Pixel)
      reads this
      requires Aligned() && 0 <= PixelIndex(r, c) < |red|
      ensures Valid() && 0 <= r < header.height && 0 <= c < header.width ==>
                p == At(Pixels(), header.width, header.height, r, c)
    {
      PixelAt(PixelIndex(r, c))
    }

    /** `set_pixel(i, p)`: the pixel's red, green and blue levels written at
        entry `i` of their planes. */
    method SetPixelAt(i: int, p: Pixel)
      requires Valid() && 0 <= i < |red|
      modifies this
      ensures Valid() && header == old(header)
      ensures red == old(red)[i := p.red] && green == old(green)[i := p.green] && blue == old(blue)[i := p.blue]
      ensures Pixels() == old(Pixels())[i := p]
    {
      MergeUpdate(blue, green, red, i, p);
      red := red[i := p.red];
      green := green[i := p.green];
      blue := blue[i := p.blue];
    }

    /** `set_pixel(r, c, p)`: only the pixel at that index changes. */
    method SetPixel(r: int, c: int, p: Pixel)
      requires Valid() && 0 <= PixelIndex(r, c) < |red|
      modifies this
      ensures Valid() && header == old(header)
      ensures Pixels() == old(Pixels())[old(PixelIndex(r, c)) := p]
    {
      SetPixelAt(PixelIndex(r, c), p);
    }

    /** `print_info`: the header's report. */
    function PrintInfo(): (report: string)
      reads this
      ensures report == BitmapHeaders.PrintInfo(header)
    {
      BitmapHeaders.PrintInfo(header)
    }

    /** `read`: open the file, read the header into this bitmap, refuse a
        negative image size, then push the levels of `height` rows of
        `width` pixels onto the planes, skipping the padding after each row.
        A failure to open leaves the bitmap as it was; a header error leaves
        the header as far as `read` of the header got (so its size need not
        match the planes any more); a negative size is refused after the
        header has been stored. */
    method Read(file: InputFile) returns (outcome: Outcome<ReadError>)
      requires Aligned()
      modifies this
      ensures Aligned()
      ensures outcome == Pass || outcome == Fail(LengthError)
              || (old(Valid()) && header.width == old(header).width && header.height == old(header).height)
              ==> Valid()
      ensures outcome == if ReadImage(file).Success? then Pass else Fail(ReadImage(file).error)
      ensures ReadImage(file).Success? ==>
                header == ReadImage(file).value.header
                && Pixels() == old(Pixels()) + ReadImage(file).value.pixels
      ensures ReadImage(file).Failure? ==> Pixels() == old(Pixels())
      ensures file.openable ==> header == ReadInto(old(header), file.bytes)
      ensures !file.openable ==> header == old(header)
    {
      if !file.openable {
        return Fail(FileFailure(CannotOpen));
      }
      var read := BitmapHeaders.Read(file.bytes);
      header := ReadInto(header, file.bytes);
      if read.Failure? {
        return Fail(FileFailure(read.error));
      }
      ReadIntoSucceeds(old(header), file.bytes);
      var w: int, h: int := header.width, header.height;
      if w * h < 0 {
        return Fail(LengthError);
      }
      var s := file.bytes[|Bytes(header)|..];
      assert ReadImage(file) == Success(Image(header, DecodeImage(s, header.width, header.height)));
      AppendImage(s);
      return Pass;
    }

    /** The pixel rows of `read`, pushed onto the planes. */
    method AppendImage(s: seq<byte>)
      requires Aligned()
      modifies this
      ensures Aligned() && header == old(header)
      ensures Pixels() == old(Pixels()) + DecodeImage(s, header.width, header.height)
      ensures Covers(DecodeImage(s, header.width, header.height), header.width, header.height)
    {
      blue, green, red := AppendPlanes(blue, green, red, s, header.width, header.height);
      PixelCountSpan(DecodeImage(s, header.width, header.height), header.width, header.height);
    }

    /** `write`: open the file, write the header, then for every row the
        pixels `get_pixel(r, c)` and the padding. */
    method Write(writable: bool) returns (r: Result<seq<byte>, FileErrorKind>)
      requires Valid()
      ensures r == WriteImage(Value(), writable)
    {
      if !writable {
        return Failure(CannotOpen);
      }
      var hd := header;
      var head := BitmapHeaders.Write(hd, true).value;
      var rows := EncodePlanes(blue, green, red, hd.width, hd.height);
      return Success(head + rows);
    }

    /** `to_gray`: the first `image_size()` pixels replaced, in place, by
        their gray pixel; the loop runs to the size the header gives, so
        that many pixels must be stored. */
    method ToGray(gray: GrayLevel)
      requires Valid() && Counted(header.width, header.height) <= |red|
      modifies this
      ensures Valid() && header == old(header)
      ensures var n := Counted(old(header).width, old(header).height);
              Pixels() == GrayImage(old(Pixels())[..n], gray) + old(Pixels())[n..]
    {
      var max := ImageSize(header);
      blue, green, red := GrayPlanes(blue, green, red, max, gray);
    }

    /** `is_gray` as written: the loop bound is the size of the array of
        planes, which is the number of channels, so only the first three
        pixels are looked at (and reading them needs three pixels). */
    method IsGrayAsWritten() returns (b: bool)
      requires Aligned() && NumChannels <= |red|
      ensures b == AllGray(Pixels()[..NumChannels])
    {
      var max := NumChannels;
      for i := 0 to max
        invariant AllGray(Pixels()[..i])
      {
        var p := PixelAt(i);
        if !p.IsGray() {
          return false;
        }
        assert Pixels()[..i + 1] == Pixels()[..i] + [p];
      }
      return true;
    }

    /** `is_gray` with the loop over the pixels: true exactly when every
        pixel is gray; stops at the first pixel that is not. */
    method IsGray() returns (b: bool)
      requires Aligned()
      ensures b == AllGray(Pixels())
    {
      var max := |red|;
      for i := 0 to max
        invariant AllGray(Pixels()[..i])
      {
        var p := PixelAt(i);
        if !p.IsGray() {
          return false;
        }
        assert Pixels()[..i + 1] == Pixels()[..i] + [p];
      }
      assert Pixels()[..max] == Pixels();
      return true;
    }

    /** `gauss`: each pixel of a copy becomes the kernel-weighted sum of the
        pixels around it in this bitmap, divided by the norm; the copy then
        replaces this bitmap. The loop runs over the red plane. Computing a
        position divides by the width, so a bitmap with pixels needs a
        non-zero width. */
    method Gauss()
      requires Valid() && (|red| > 0 ==> header.width != 0)
      modifies this
      ensures Valid() && header == old(header)
      ensures Pixels() == GaussImage(old(Pixels()), old(header).width, old(header).height)
    {
      var size := GetSize();
      blue, green, red := GaussPlanes(blue, green, red, size.0, size.1);
    }

    /** `generate_histogram`: a new histogram to which the red, green and
        blue levels of each of the first `width * height` pixels are added,
        in that order. The loop reads that many entries, so they must be
        stored. */
    method GenerateHistogram() returns (histo: Histogram)
      requires Valid() && header.width * header.height <= |red|
      ensures fresh(histo.channels) && histo.Valid()
      ensures histo.Counts() == HistogramOf(Pixels()[..Counted(header.width, header.height)])
    {
      histo := HistogramOfPlanes(blue, green, red, header.width * header.height);
    }

    /** `generate_histogram` with the loop bound it evidently intends, the
        number of entries stored in each plane: every pixel the planes spell
        is added once, so each channel counts them all, and no entry past
        the planes is read. */
    method GenerateHistogramCorrected() returns (histo: Histogram)
      requires Aligned()
      ensures fresh(histo.channels) && histo.Valid()
      ensures histo.Counts() == HistogramOf(Pixels())
      ensures forall ch :: 0 <= ch < NumChannels ==> Sum(histo.Counts()[ch]) == |red|
    {
      histo := HistogramOfPlanes(blue, green, red, |red|);
      ghost var ps := Pixels();
      assert ps[..|red|] == ps;
      forall ch | 0 <= ch < NumChannels
        ensures Sum(HistogramOf(ps)[ch]) == |red|
      {
        HistogramTotals(ps, ch);
      }
    }
  }

  /** For a width that is not negative the size `to_gray` runs to is the
      number of pixels `read` stores. */
  lemma CountedIsPixelCount(w: int, h: int)
    requires w >= 0
    ensures Counted(w, h) == PixelCount(w, h)
  {
    if w == 0 {
      assert w * h == 0;
    } else if h <= 0 {
      assert w * h <= 0 by {
        assert w * h == -(w * -h);
      }
    }
  }

  // ---- the loops, on the planes as values ----

  /** The pixel loop of `read`: `h` rows of `w` pixels whose levels are
      pushed onto the three planes, the padding after each row skipped. */
  method AppendPlanes(b0: seq<byte>, g0: seq<byte>, r0: seq<byte>, s: seq<byte>, w: int, h: int)
    returns (bs: seq<byte>, gs: seq<byte>, rs: seq<byte>)
    requires |b0| == |g0| == |r0|
    ensures |bs| == |gs| == |rs|
    ensures Merge(bs, gs, rs) == Merge(b0, g0, r0) + DecodeImage(s, w, h)
  {
    ghost var ps := Merge(b0, g0, r0);
    var cols: nat := if w > 0 then w else 0;
    var extra := RowExtra(w);
    var skip: nat := if extra != 0 then 4 - extra else 0;
    assert skip == ReadSkip(w);
    var stream := s;
    bs, gs, rs := b0, g0, r0;
    var r := 0;
    while r < h
      invariant 0 <= r <= if h > 0 then h else 0
      invariant |bs| == |gs| == |rs|
      invariant Merge(bs, gs, rs) == ps + DecodeRows(s, cols, skip, r)
      invariant stream == RowsConsumed(s, 3 * cols + skip, r)
    {
      ghost var before := Merge(bs, gs, rs);
      bs, gs, rs, stream := AppendPlanesRow(bs, gs, rs, stream, w);
      if extra != 0 {
        stream := Drop(stream, 4 - extra);
      } else {
        DropNothing(stream);
      }
      RowRead(s, cols, skip, r, ps, before, Merge(bs, gs, rs));
      RowSkipped(s, cols, skip, r, stream);
      r := r + 1;
    }
    AppendDecoded(s, w, h, cols, skip);
  }

  /** The column loop of `read`: the `w` pixels of one row pushed onto the
      planes; what is left of the stream comes back. */
  method AppendPlanesRow(b0: seq<byte>, g0: seq<byte>, r0: seq<byte>, s: seq<byte>, w: int)
    returns (bs: seq<byte>, gs: seq<byte>, rs: seq<byte>, stream: seq<byte>)
    requires |b0| == |g0| == |r0|
    ensures |bs| == |gs| == |rs|
    ensures var cols := if w > 0 then w else 0;
            && Merge(bs, gs, rs) == Merge(b0, g0, r0) + DecodeRow(s, cols)
            && stream == Drop(s, 3 * cols)
  {
    ghost var before := Merge(b0, g0, r0);
    ghost var cols := if w > 0 then w else 0;
    bs, gs, rs, stream := b0, g0, r0, s;
    var c := 0;
    while c < w
      invariant 0 <= c <= cols
      invariant |bs| == |gs| == |rs|
      invariant Merge(bs, gs, rs) == before + DecodeRow(s, c)
      invariant stream == Drop(s, 3 * c)
    {
      var p := ReadPixel(stream, 0);
      DecodeRowSnoc(s, c);
      Assoc3(before, DecodeRow(s, c), [p]);
      MergeSnoc(bs, gs, rs, p);
      rs := rs + [p.red];
      gs := gs + [p.green];
      bs := bs + [p.blue];
      DropDrop(s, 3 * c, 3);
      stream := Drop(stream, 3);
      c := c + 1;
    }
  }

  /** The row loop of `write`: for each of the `h` rows its pixels and then
      the row padding. */
  method EncodePlanes(bs: seq<byte>, gs: seq<byte>, rs: seq<byte>, w: int, h: int) returns (out: seq<byte>)
    requires |bs| == |gs| == |rs| && Covers(Merge(bs, gs, rs), w, h)
    ensures out == EncodeImage(Merge(bs, gs, rs), w, h)
  {
    ghost var ps := Merge(bs, gs, rs);
    var padding := Padding(w);
    var cols: nat := if w > 0 then w else 0;
    var rows: nat := if h > 0 then h else 0;
    SpanIsProduct(cols, rows);
    assert Span(cols, rows) <= |ps|;
    out := [];
    var row := 0;
    RowsLeftStart(ps, cols, padding, rows);
    while row < h
      invariant 0 <= row <= rows
      invariant RowsLeft(ps, cols, padding, rows, row, out)
    {
      SpanGrows(cols, row, rows);
      var bytes := WritePlanesRow(bs, gs, rs, w, row);
      RowWritten(ps, cols, padding, rows, row, out, bytes);
      out := out + bytes + Zeros(padding);
      row := row + 1;
    }
    RowsLeftEnd(ps, cols, padding, rows, out);
  }

  /** The pixel loop of `write` for row `row`: the bytes of
      `get_pixel(row, c)` for `c` below the width, in order. */
  method WritePlanesRow(bs: seq<byte>, gs: seq<byte>, rs: seq<byte>, w: int, row: nat) returns (out: seq<byte>)
    requires |bs| == |gs| == |rs|
    requires var cols := if w > 0 then w else 0; Span(cols, row) + cols <= |rs|
    ensures var cols := if w > 0 then w else 0;
            out == RowBytes(Merge(bs, gs, rs)[Span(cols, row)..Span(cols, row) + cols])
  {
    ghost var ps := Merge(bs, gs, rs);
    var cols: nat := if w > 0 then w else 0;
    ghost var start := Span(cols, row);
    out := [];
    var c := 0;
    while c < w
      invariant 0 <= c <= cols
      invariant out == RowBytes(ps[start..start + c])
    {
      IndexIsSpan(w, row, c);
      var i := Index(w, row, c);
      var p := FromRgb(rs[i], gs[i], bs[i]);
      assert p == ps[start + c];
      PixelWritten(ps, start, c, out);
      out := out + p.Bytes();
      c := c + 1;
    }
  }

  /** The loop of `to_gray`: entries `0 .. max` of the planes replaced by
      the gray level of the pixel they make. */
  method GrayPlanes(b0: seq<byte>, g0: seq<byte>, r0: seq<byte>, max: int, gray: GrayLevel)
    returns (bs: seq<byte>, gs: seq<byte>, rs: seq<byte>)
    requires |b0| == |g0| == |r0| && (if max > 0 then max else 0) <= |r0|
    ensures |bs| == |gs| == |rs| == |r0|
    ensures var n := if max > 0 then max else 0;
            Merge(bs, gs, rs) == GrayImage(Merge(b0, g0, r0)[..n], gray) + Merge(b0, g0, r0)[n..]
  {
    ghost var ps := Merge(b0, g0, r0);
    var n: nat := if max > 0 then max else 0;
    bs, gs, rs := b0, g0, r0;
    var i := 0;
    while i < max
      invariant 0 <= i <= n
      invariant |bs| == |gs| == |rs| == |r0|
      invariant forall k :: 0 <= k < i ==> Merge(bs, gs, rs)[k] == ps[k].ToGrayCorrected(gray)
      invariant forall k :: i <= k < |rs| ==> Merge(bs, gs, rs)[k] == ps[k]
    {
      var level := gray(rs[i], gs[i], bs[i]);
      assert Pixel(level, level, level) == ps[i].ToGrayCorrected(gray);
      MergeUpdate(bs, gs, rs, i, Pixel(level, level, level));
      rs := rs[i := level];
      gs := gs[i := level];
      bs := bs[i := level];
      i := i + 1;
    }
    GrayPrefix(ps, Merge(bs, gs, rs), n, gray);
  }

  /** Pixels whose first `n` are the gray pixels of `ps` and whose others
      are those of `ps` are the gray prefix followed by the rest. */
  lemma GrayPrefix(ps: seq<Pixel>, qs: seq<Pixel>, n: nat, gray: GrayLevel)
    requires n <= |ps| == |qs|
    requires forall k :: 0 <= k < n ==> qs[k] == ps[k].ToGrayCorrected(gray)
    requires forall k :: n <= k < |qs| ==> qs[k] == ps[k]
    ensures qs == GrayImage(ps[..n], gray) + ps[n..]
  {
    var rs := GrayImage(ps[..n], gray) + ps[n..];
    forall k | 0 <= k < |qs|
      ensures qs[k] == rs[k]
    {
      if k >= n {
        assert rs[k] == ps[n..][k - n];
      }
    }
  }

  /** The pixel loop of `gauss`: a copy of the planes in which every pixel
      is replaced by the blur around it in the original planes. */
  method GaussPlanes(b0: seq<byte>, g0: seq<byte>, r0: seq<byte>, w: int, h: int)
    returns (bs: seq<byte>, gs: seq<byte>, rs: seq<byte>)
    requires |b0| == |g0| == |r0| && Covers(Merge(b0, g0, r0), w, h) && (|r0| > 0 ==> w != 0)
    ensures |bs| == |gs| == |rs| == |r0|
    ensures Merge(bs, gs, rs) == GaussImage(Merge(b0, g0, r0), w, h)
  {
    ghost var ps := Merge(b0, g0, r0);
    ghost var blurred := GaussImage(ps, w, h);
    bs, gs, rs := b0, g0, r0;
    var count := |r0|;
    for k := 0 to count
      invariant |bs| == |gs| == |rs| == |r0|
      invariant forall j :: 0 <= j < k ==> Merge(bs, gs, rs)[j] == blurred[j]
    {
      var position := Position(w, k);
      var accum := AccumulatePlanes(b0, g0, r0, w, h, Kernel, position.0, position.1);
      var quotient := Divide(accum, GaussNorm);
      var p := FromAccumulator(quotient);
      MergeUpdate(bs, gs, rs, k, p);
      rs := rs[k := p.red];
      gs := gs[k := p.green];
      bs := bs[k := p.blue];
    }
    assert Merge(bs, gs, rs) == blurred;
  }

  /** The kernel loop of `gauss` around `(row, column)`: the weighted
      pixels `get_pixel(index(i, j))` of the taps whose column and then row
      fall inside the image. */
  method AccumulatePlanes(bs: seq<byte>, gs: seq<byte>, rs: seq<byte>, w: int, h: int, kernel: seq<int>,
                          row: int, column: int) returns (accum: ColorAccumulator)
    requires |bs| == |gs| == |rs| && Covers(Merge(bs, gs, rs), w, h) && |kernel| == GaussSize
    ensures accum == TapSum(Merge(bs, gs, rs), w, h, kernel, row, column, GaussSize)
  {
    ghost var ps := Merge(bs, gs, rs);
    accum := Zero;
    for g := 0 to GaussSize
      invariant accum == TapSum(ps, w, h, kernel, row, column, g)
    {
      TapSumNext(ps, w, h, kernel, row, column, g);
      var j := TapCol(column, g);
      if j < 0 || j >= w { continue; }
      var i := TapRow(row, g);
      if i < 0 || i >= h { continue; }
      var weight := kernel[g];
      IndexIsSpan(w, i, j);
      InImage(ps, w, h, i, j);
      var k := Index(w, i, j);
      var p := FromRgb(rs[k], gs[k], bs[k]);
      assert p == ps[k];
      accum := accum.Plus(p.Scale(weight));
    }
  }

  /** The loop of `generate_histogram`: a new histogram to which the red,
      green and blue entries of the first `count` pixels are added. */
  method HistogramOfPlanes(bs: seq<byte>, gs: seq<byte>, rs: seq<byte>, count: int) returns (histo: Histogram)
    requires |bs| == |gs| == |rs| && count <= |rs|
    ensures fresh(histo.channels) && histo.Valid()
    ensures histo.Counts() == HistogramOf(Merge(bs, gs, rs)[..if count > 0 then count else 0])
  {
    ghost var ps := Merge(bs, gs, rs);
    histo := new Histogram();
    HistogramOfEmpty();
    var n: nat := if count > 0 then count else 0;
    var i := 0;
    while i < n
      invariant 0 <= i <= n
      invariant fresh(histo.channels) && histo.Valid()
      invariant histo.Counts() == HistogramOf(ps[..i])
    {
      HistogramStep(ps, i);
      assert ps[i] == Pixel(bs[i], gs[i], rs[i]);
      histo.AddRed(rs[i]);
      histo.AddGreen(gs[i]);
      histo.AddBlue(bs[i]);
      i := i + 1;
    }
    assert i == n;
  }

  // ---- what `is_gray` as written misses ----

  /** A 2 x 2 raster whose last pixel is red: its first three pixels are
      gray, so `is_gray` as written reports a gray image, yet it is not. */
  lemma IsGrayAsWrittenMissesLastPixel(ps: seq<Pixel>)
    requires ps == [Black, Black, Black, FromRgb(255, 0, 0)]
    ensures AllGray(ps[..NumChannels]) && !AllGray(ps)
  {
    assert !ps[3].IsGray();
  }

  /** The bounds differ whenever there are more pixels than channels: the
      first three pixels are all that the loop as written reads. */
  lemma IsGrayAsWrittenIsPrefix(ps: seq<Pixel>)
    requires NumChannels <= |ps|
    ensures AllGray(ps) ==> AllGray(ps[..NumChannels])
    ensures |ps| == NumChannels ==> (AllGray(ps[..NumChannels]) <==> AllGray(ps))
  {
    assert |ps| == NumChannels ==> ps[..NumChannels] == ps;
  }
}
