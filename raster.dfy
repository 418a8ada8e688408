/** The pixel array of a bitmap file, shared by both in-memory layouts: rows
    stored in file order (no flip), three bytes per pixel, each row padded with
    zero bytes to a multiple of four. */
module RasterCodec {
  import opened Machine
  import opened Results
  import opened FileErrors
  import opened Pixels
  import opened BitmapHeaders

  /** A file as `std::ifstream` sees it: whether it opens, and its bytes. */
  datatype InputFile = InputFile(openable: bool, bytes: seq<byte>)

  /** What `read` throws: a `file_error`, or the `std::length_error` of
      `reserve` when `width * height` is negative. */
  datatype ReadError = FileFailure(kind: FileErrorKind) | LengthError

  /** A header together with the pixels of the image, row by row. */
  datatype Image = Image(header: Header, pixels: seq<Pixel>)

  /** How many pixels `read` appends: one per `(r, c)` with `0 <= r < height`
      and `0 <= c < width`. */
  function PixelCount(w: int, h: int): (n: nat)
    ensures w > 0 && h > 0 ==> n == w * h
    ensures w <= 0 || h <= 0 ==> n == 0
  {
    if w > 0 && h > 0 then w * h else 0
  }

  /** When both dimensions are at least zero the pixel count is the image size. */
  lemma PixelCountIsImageSize(w: int, h: int)
    requires w >= 0 && h >= 0
    ensures PixelCount(w, h) == w * h
  {
  }

  /** The pixels in `rows` rows of `cols` pixels, counted row by row. */
  function Span(cols: nat, rows: nat): nat
  {
    if rows == 0 then 0 else Span(cols, rows - 1) + cols
  }

  lemma {:induction false} SpanIsProduct(cols: nat, rows: nat)
    ensures Span(cols, rows) == cols * rows
  {
    if rows > 0 {
      SpanIsProduct(cols, rows - 1);
      assert cols * (rows - 1) + cols == cols * rows;
    }
  }

  /** `(4 - (width * 3) % 4) % 4`: the zero bytes `write` appends to a row. */
  function Padding(w: int): (n: int)
    ensures 0 <= n < 4
  {
    TruncMod(4 - TruncMod(3 * w, 4), 4)
  }

  /** The bytes `read` skips after a row: `4 - extra` when
      `extra = (width * 3) % 4` is not zero. */
  function ReadSkip(w: int): (n: int)
    ensures 0 <= n < 8
    ensures w >= 0 ==> n < 4
  {
    var extra := RowExtra(w);
    if extra != 0 then 4 - extra else 0
  }

  /** `(width * 3) % 4`, with C++'s remainder. */
  function RowExtra(w: int): (extra: int)
    ensures -4 < extra < 4
  {
    TruncMod(3 * w, 4)
  }

  /** For a non-negative width the two computations agree, and they round
      the row length up to a multiple of four. */
  lemma PaddingMatchesSkip(w: int)
    requires w >= 0
    ensures Padding(w) == ReadSkip(w)
    ensures (3 * w + Padding(w)) % 4 == 0
  {
    PaddingIsEuclidean(w);
    ReadSkipIsEuclidean(w);
    RoundsUp(3 * w);
  }

  lemma PaddingIsEuclidean(w: int)
    requires w >= 0
    ensures Padding(w) == (4 - (3 * w) % 4) % 4
  {
    TruncAgrees(3 * w, 4);
    TruncAgrees(4 - (3 * w) % 4, 4);
  }

  lemma ReadSkipIsEuclidean(w: int)
    requires w >= 0
    ensures ReadSkip(w) == if (3 * w) % 4 != 0 then 4 - (3 * w) % 4 else 0
  {
    TruncAgrees(3 * w, 4);
  }

  lemma RoundsUp(a: nat)
    ensures (4 - a % 4) % 4 == if a % 4 != 0 then 4 - a % 4 else 0
    ensures (a + (4 - a % 4) % 4) % 4 == 0
  {
    if a % 4 != 0 {
      assert a + (4 - a % 4) == 4 * (a / 4 + 1);
    }
  }

  /** The stream after `n` more bytes are consumed; reading past the end
      leaves nothing to read. */
  function Drop(s: seq<byte>, n: nat): (t: seq<byte>)
    ensures |t| == if n <= |s| then |s| - n else 0
  {
    if n <= |s| then s[n..] else []
  }

  lemma DropDrop(s: seq<byte>, a: nat, b: nat)
    ensures Drop(Drop(s, a), b) == Drop(s, a + b)
  {
  }

  /** The `n` pixels of a row read from the front of the stream `s`. */
  function DecodeRow(s: seq<byte>, n: nat): (ps: seq<Pixel>)
    ensures |ps| == n
    decreases n
  {
    if n == 0 then [] else [ReadPixel(s, 0)] + DecodeRow(Drop(s, NumChannels), n - 1)
  }

  /** `rows` rows of `cols` pixels, each row followed by `skip` ignored
      bytes. */
  function DecodeRows(s: seq<byte>, cols: nat, skip: nat, rows: nat): (ps: seq<Pixel>)
    decreases rows
  {
    if rows == 0 then []
    else DecodeRow(s, cols) + DecodeRows(Drop(s, 3 * cols + skip), cols, skip, rows - 1)
  }

  /** The pixels `read` appends as it consumes the stream `s` that follows
      the header: `height` rows of `width` pixels in file order, each row
      followed by its padding. */
  function DecodeImage(s: seq<byte>, w: int, h: int): (ps: seq<Pixel>)
    ensures |ps| == PixelCount(w, h)
  {
    if w <= 0 || h <= 0 then []
    else
      DecodeRowsLength(s, w, ReadSkip(w), h);
      SpanIsProduct(w, h);
      DecodeRows(s, w, ReadSkip(w), h)
  }

  /** Reading one more pixel of a row reads it at the next position. */
  lemma {:induction false} DecodeRowSnoc(s: seq<byte>, n: nat)
    decreases n
    ensures DecodeRow(s, n + 1) == DecodeRow(s, n) + [ReadPixel(Drop(s, 3 * n), 0)]
  {
    if n > 0 {
      DecodeRowSnoc(Drop(s, 3), n - 1);
      DropDrop(s, 3, 3 * (n - 1));
    }
  }

  /** The stream left after `rows` rows of `stride` bytes are consumed. */
  function RowsConsumed(s: seq<byte>, stride: nat, rows: nat): seq<byte>
    decreases rows
  {
    if rows == 0 then s else RowsConsumed(Drop(s, stride), stride, rows - 1)
  }

  lemma {:induction false} RowsConsumedSnoc(s: seq<byte>, stride: nat, rows: nat)
    ensures RowsConsumed(s, stride, rows + 1) == Drop(RowsConsumed(s, stride, rows), stride)
    decreases rows
  {
    if rows > 0 {
      RowsConsumedSnoc(Drop(s, stride), stride, rows - 1);
    }
  }

  /** Reading one more row reads it where the previous rows end. */
  lemma {:induction false} DecodeRowsSnoc(s: seq<byte>, cols: nat, skip: nat, rows: nat)
    ensures DecodeRows(s, cols, skip, rows + 1)
            == DecodeRows(s, cols, skip, rows) + DecodeRow(RowsConsumed(s, 3 * cols + skip, rows), cols)
    decreases rows
  {
    if rows > 0 {
      DecodeRowsSnoc(Drop(s, 3 * cols + skip), cols, skip, rows - 1);
      assert RowsConsumed(Drop(s, 3 * cols + skip), 3 * cols + skip, rows - 1) == RowsConsumed(s, 3 * cols + skip, rows);
      ConsSnoc(DecodeRows(s, cols, skip, rows + 1), DecodeRow(s, cols), DecodeRows(Drop(s, 3 * cols + skip), cols, skip, rows),
               DecodeRows(Drop(s, 3 * cols + skip), cols, skip, rows - 1),
               DecodeRow(RowsConsumed(s, 3 * cols + skip, rows), cols), DecodeRows(s, cols, skip, rows));
    } else {
      OnlyRow(DecodeRows(s, cols, skip, rows + 1), DecodeRow(s, cols), DecodeRows(Drop(s, 3 * cols + skip), cols, skip, rows),
              DecodeRows(s, cols, skip, rows), DecodeRow(RowsConsumed(s, 3 * cols + skip, rows), cols));
    }
  }

  /** A sequence made of one part and an empty rest is that part. */
  lemma OnlyRow<T>(whole: seq<T>, part: seq<T>, rest: seq<T>, front: seq<T>, last: seq<T>)
    requires whole == part + rest && rest == [] && front == [] && last == part
    ensures whole == front + last
  {
  }

  /** Taking the first element off and putting the last one on commute. */
  lemma ConsSnoc<T>(whole: seq<T>, first: seq<T>, tail: seq<T>, middle: seq<T>, last: seq<T>, front: seq<T>)
    requires whole == first + tail && tail == middle + last && front == first + middle
    ensures whole == front + last
  {
    Assoc3(first, middle, last);
  }

  /** Reading at a position of the stream left after `n` bytes is reading
      `n` positions further on in the original stream. */
  lemma ReadPixelDrop(s: seq<byte>, n: nat, pos: nat)
    ensures ReadPixel(Drop(s, n), pos) == ReadPixel(s, n + pos)
  {
    ByteAtDrop(s, n, pos);
    ByteAtDrop(s, n, pos + 1);
    ByteAtDrop(s, n, pos + 2);
  }

  lemma ByteAtDrop(s: seq<byte>, n: nat, k: nat)
    ensures ByteAt(Drop(s, n), k) == ByteAt(s, n + k)
  {
  }

  /** Pixel `c` of a row is read at byte `3 * c` of the row. */
  lemma {:induction false} DecodeRowAt(s: seq<byte>, n: nat, c: nat)
    requires c < n
    ensures DecodeRow(s, n)[c] == ReadPixel(s, 3 * c)
    decreases c
  {
    if c > 0 {
      DecodeRowAt(Drop(s, NumChannels), n - 1, c - 1);
      ReadPixelDrop(s, NumChannels, 3 * (c - 1));
      assert NumChannels + 3 * (c - 1) == 3 * c;
    }
  }

  /** Pixel `i` of `ps` is the one read at byte `pos` of `s`. */
  predicate ReadAt(ps: seq<Pixel>, i: int, s: seq<byte>, pos: int)
  {
    0 <= i < |ps| && ps[i] == ReadPixel(s, pos)
  }

  /** Pixel `c` of row `r` is read after `r` whole rows of `stride` bytes. */
  lemma {:induction false} DecodeRowsAt(s: seq<byte>, cols: nat, skip: nat, rows: nat, r: nat, c: nat)
    requires r < rows && c < cols
    ensures RowsReadAt(s, cols, skip, rows, Span(cols, r) + c, Span(3 * cols + skip, r) + 3 * c)
    decreases r
  {
    if r == 0 {
      ReadAtFirstRow(s, cols, skip, rows, c, Span(cols, r) + c, Span(3 * cols + skip, r) + 3 * c);
    } else {
      var r1: nat, rows1: nat := r - 1, rows - 1;
      DecodeRowsAt(Drop(s, 3 * cols + skip), cols, skip, rows1, r1, c);
      DecodeRowsAtStep(s, cols, skip, rows, rows1, r, r1, c);
    }
  }

  /** The induction step of `DecodeRowsAt`: from the rows after the first
      to all of them. */
  lemma DecodeRowsAtStep(s: seq<byte>, cols: nat, skip: nat, rows: nat, rows1: nat, r: nat, r1: nat, c: nat)
    requires rows1 + 1 == rows && r1 + 1 == r
    requires RowsReadAt(Drop(s, 3 * cols + skip), cols, skip, rows1, Span(cols, r1) + c, Span(3 * cols + skip, r1) + 3 * c)
    ensures RowsReadAt(s, cols, skip, rows, Span(cols, r) + c, Span(3 * cols + skip, r) + 3 * c)
  {
    SpanNext(cols, r1, r);
    SpanNext(3 * cols + skip, r1, r);
    ReadAtLaterRow(s, cols, skip, rows, rows1, Span(cols, r1) + c, Span(3 * cols + skip, r1) + 3 * c,
                   Span(cols, r) + c, Span(3 * cols + skip, r) + 3 * c);
  }

  /** Pixel `c` of the first row is read at byte `3 * c`. */
  lemma ReadAtFirstRow(s: seq<byte>, cols: nat, skip: nat, rows: nat, c: nat, i: nat, pos: nat)
    requires 0 < rows && c < cols && i == c && pos == 3 * c
    ensures RowsReadAt(s, cols, skip, rows, i, pos)
  {
    DecodeRowAt(s, cols, c);
    ReadAtPrefix(DecodeRow(s, cols), DecodeRows(Drop(s, 3 * cols + skip), cols, skip, rows - 1), c, s, 3 * c);
  }

  /** A pixel of the rows after the first is read one row further on. */
  lemma ReadAtLaterRow(s: seq<byte>, cols: nat, skip: nat, rows: nat, rows1: nat, i: nat, pos: nat, j: nat, at: nat)
    requires rows1 + 1 == rows && j == cols + i && at == 3 * cols + skip + pos
    requires RowsReadAt(Drop(s, 3 * cols + skip), cols, skip, rows1, i, pos)
    ensures RowsReadAt(s, cols, skip, rows, j, at)
  {
    ReadPixelDrop(s, 3 * cols + skip, pos);
    ReadAtSuffix(DecodeRow(s, cols), DecodeRows(Drop(s, 3 * cols + skip), cols, skip, rows1), i, s, at, j);
  }

  /** Pixel `i` of `rows` rows of `cols` pixels is the one read at byte `pos`. */
  predicate RowsReadAt(s: seq<byte>, cols: nat, skip: nat, rows: nat, i: int, pos: int)
  {
    ReadAt(DecodeRows(s, cols, skip, rows), i, s, pos)
  }

  lemma ReadAtPrefix(ps: seq<Pixel>, qs: seq<Pixel>, i: nat, s: seq<byte>, pos: nat)
    requires ReadAt(ps, i, s, pos)
    ensures ReadAt(ps + qs, i, s, pos)
  {
  }

  lemma ReadAtSuffix(ps: seq<Pixel>, qs: seq<Pixel>, c: nat, s: seq<byte>, pos: nat, i: nat)
    requires ReadAt(qs, c, s, pos) && i == |ps| + c
    ensures ReadAt(ps + qs, i, s, pos)
  {
  }

  /** Consuming `rows` rows of `stride` bytes drops `Span(stride, rows)` bytes. */
  lemma {:induction false} RowsConsumedDrop(s: seq<byte>, stride: nat, rows: nat)
    ensures RowsConsumed(s, stride, rows) == Drop(s, Span(stride, rows))
    decreases rows
  {
    if rows > 0 {
      RowsConsumedSnoc(s, stride, rows - 1);
      RowsConsumedDrop(s, stride, rows - 1);
      DropDrop(s, Span(stride, rows - 1), stride);
    } else {
      DropNothing(s);
    }
  }

  /** One row more spans `cols` pixels more. */
  lemma SpanNext(cols: nat, m: nat, n: nat)
    requires m + 1 == n
    ensures Span(cols, n) == cols + Span(cols, m)
  {
  }

  /** Pixel `r * width + c` of the decoded image is the one read at byte
      `r * (3 * width + skip) + 3 * c` of the pixel section: rows in file
      order, each after the padding of the rows before it, and no flip. */
  lemma DecodeImageAt(s: seq<byte>, w: int, h: int, r: nat, c: nat)
    requires r < h && c < w
    ensures ReadAt(DecodeImage(s, w, h), r * w + c, s, r * (3 * w + ReadSkip(w)) + 3 * c)
  {
    PaddingMatchesSkip(w);
    var skip: nat := ReadSkip(w);
    DecodeRowsAt(s, w, skip, h, r, c);
    var ps := DecodeRows(s, w, skip, h);
    assert DecodeImage(s, w, h) == ps;
    RowPosition(w, skip, r);
    var i, pos := Span(w, r) + c, Span(3 * w + skip, r) + 3 * c;
    assert i == r * w + c;
    assert pos == r * (3 * w + ReadSkip(w)) + 3 * c;
    assert ReadAt(ps, i, s, pos);
  }

  lemma RowPosition(w: nat, skip: nat, r: nat)
    ensures Span(w, r) == r * w && Span(3 * w + skip, r) == r * (3 * w + skip)
  {
    SpanIsProduct(w, r);
    SpanIsProduct(3 * w + skip, r);
  }

  /** The rows read so far number `cols * rows` pixels. */
  lemma {:induction false} DecodeRowsLength(s: seq<byte>, cols: nat, skip: nat, rows: nat)
    decreases rows
    ensures |DecodeRows(s, cols, skip, rows)| == Span(cols, rows)
  {
    if rows > 0 {
      DecodeRowsLength(Drop(s, 3 * cols + skip), cols, skip, rows - 1);
    }
  }

  /** `read`: open the file, read the header, refuse a negative image size,
      then the pixel rows; the pixels start right after the bytes the header
      consumed. */
  function ReadImage(file: InputFile): (r: Result<Image, ReadError>)
    ensures !file.openable <==> r == Failure(FileFailure(CannotOpen))
    ensures file.openable && Read(file.bytes).Failure? ==>
              r == Failure(FileFailure(Read(file.bytes).error))
    ensures r == Failure(LengthError) <==>
              file.openable && Read(file.bytes).Success? && ImageSize(Read(file.bytes).value) < 0
    ensures r.Success? ==>
              && file.openable && Read(file.bytes) == Success(r.value.header)
              && ImageSize(r.value.header) >= 0
              && |r.value.pixels| == PixelCount(r.value.header.width, r.value.header.height)
  {
    if !file.openable then Failure(FileFailure(CannotOpen))
    else match Read(file.bytes)
      case Failure(e) => Failure(FileFailure(e))
      case Success(h) =>
        if ImageSize(h) < 0 then Failure(LengthError)
        else Success(Image(h, DecodeImage(file.bytes[|Bytes(h)|..], h.width, h.height)))
  }

  // ---- writing ----

  function Zeros(n: nat): (s: seq<byte>)
    ensures |s| == n && forall i :: 0 <= i < n ==> s[i] == 0
  {
    seq(n, _ => 0)
  }

  /** The bytes `write` emits for a row of pixels. */
  function RowBytes(row: seq<Pixel>): (s: seq<byte>)
    ensures |s| == 3 * |row|
  {
    if row == [] then [] else row[0].Bytes() + RowBytes(row[1..])
  }

  /** `rows` rows of `cols` pixels from the front of `ps`, each followed by
      `pad` zeros. */
  function EncodeRows(ps: seq<Pixel>, cols: nat, pad: nat, rows: nat): (s: seq<byte>)
    requires Span(cols, rows) <= |ps|
  {
    if rows == 0 then []
    else RowBytes(ps[..cols]) + Zeros(pad) + EncodeRows(ps[cols..], cols, pad, rows - 1)
  }

  /** `ps` holds the `width * height` pixels the source indexes (the product
      counted row by row, see `SpanIsProduct`). */
  predicate Covers(ps: seq<Pixel>, w: int, h: int)
  {
    w > 0 && h > 0 ==> Span(w, h) <= |ps|
  }

  /** The pixel rows `write` emits: for each of the `height` rows, `width`
      pixels and the row padding. A non-positive width or height emits no
      pixels (and rows of padding only, for a positive height). */
  function EncodeImage(ps: seq<Pixel>, w: int, h: int): (s: seq<byte>)
    requires Covers(ps, w, h)
  {
    var cols := if w > 0 then w else 0;
    var rows := if h > 0 then h else 0;
    SpanIsProduct(cols, rows);
    EncodeRows(ps, cols, Padding(w), rows)
  }

  /** `write` emits `3 * cols + pad` bytes for each row. */
  lemma {:induction false} EncodeRowsLength(ps: seq<Pixel>, cols: nat, pad: nat, rows: nat)
    requires Span(cols, rows) <= |ps|
    ensures |EncodeRows(ps, cols, pad, rows)| == Span(3 * cols + pad, rows)
    decreases rows
  {
    if rows > 0 {
      var before: nat := rows - 1;
      SpanNext(cols, before, rows);
      EncodeRowsLength(ps[cols..], cols, pad, before);
      SpanNext(3 * cols + pad, before, rows);
    }
  }

  /** The pixel section `write` emits holds, for every row, three bytes per
      pixel and the padding, even when the width is not positive. */
  lemma EncodeImageLength(ps: seq<Pixel>, w: int, h: int)
    requires Covers(ps, w, h)
    ensures var cols, rows := if w > 0 then w else 0, if h > 0 then h else 0;
            |EncodeImage(ps, w, h)| == rows * (3 * cols + Padding(w))
  {
    var cols: nat, rows: nat := if w > 0 then w else 0, if h > 0 then h else 0;
    var pad: nat := Padding(w);
    SpanIsProduct(cols, rows);
    assert EncodeImage(ps, w, h) == EncodeRows(ps, cols, pad, rows);
    EncodeRowsLength(ps, cols, pad, rows);
    SpanIsProduct(3 * cols + pad, rows);
    assert (3 * cols + pad) * rows == rows * (3 * cols + pad);
  }

  /** `write`: open the file, write the header on the fresh stream, then
      the pixel rows. */
  function WriteImage(img: Image, writable: bool): (r: Result<seq<byte>, FileErrorKind>)
    requires Covers(img.pixels, img.header.width, img.header.height)
    ensures !writable <==> r == Failure(CannotOpen)
    ensures r.Success? ==> Bytes(img.header) <= r.value
  {
    if !writable then Failure(CannotOpen)
    else
      var out := Write(img.header, true).value;
      Success(out + EncodeImage(img.pixels, img.header.width, img.header.height))
  }

  // ---- the pixel round trip ----

  lemma MulMonotone(a: nat, b: nat, boundA: nat, boundB: nat)
    requires a <= boundA && b <= boundB
    ensures a * b <= boundA * boundB
  {
    assert a * b <= boundA * b;
    assert boundA * b <= boundA * boundB;
  }

  /** A row reads back from the bytes `write` emitted for it. */
  lemma {:induction false} DecodeRowBytes(row: seq<Pixel>, after: seq<byte>)
    ensures DecodeRow(RowBytes(row) + after, |row|) == row
  {
    if row != [] {
      var s := RowBytes(row) + after;
      var rest := RowBytes(row[1..]) + after;
      assert s == row[0].Bytes() + rest;
      ReadWritePixel(row[0], [], rest);
      assert [] + row[0].Bytes() + rest == s;
      assert Drop(s, NumChannels) == rest;
      DecodeRowBytes(row[1..], after);
    }
  }

  /** The rows read back from the bytes `write` emitted for them. */
  lemma {:induction false} DecodeEncodeRows(ps: seq<Pixel>, cols: nat, pad: nat, rows: nat, after: seq<byte>)
    requires |ps| == Span(cols, rows)
    ensures DecodeRows(EncodeRows(ps, cols, pad, rows) + after, cols, pad, rows) == ps
    decreases rows
  {
    if rows > 0 {
      var s := EncodeRows(ps, cols, pad, rows) + after;
      FirstRowBack(ps, cols, pad, rows, after);
      DecodeEncodeRows(ps[cols..], cols, pad, rows - 1, after);
      assert DecodeRows(s, cols, pad, rows)
          == DecodeRow(s, cols) + DecodeRows(Drop(s, 3 * cols + pad), cols, pad, rows - 1);
      TakeDrop(ps, cols);
    }
  }

  /** The first row reads back from the bytes `write` emitted, and the stream
      then continues with the remaining rows. */
  lemma FirstRowBack(ps: seq<Pixel>, cols: nat, pad: nat, rows: nat, after: seq<byte>)
    requires rows > 0 && |ps| == Span(cols, rows)
    ensures var s := EncodeRows(ps, cols, pad, rows) + after;
            && DecodeRow(s, cols) == ps[..cols]
            && Drop(s, 3 * cols + pad) == EncodeRows(ps[cols..], cols, pad, rows - 1) + after
  {
    var row, others := ps[..cols], ps[cols..];
    var bytes, zeros := RowBytes(row), Zeros(pad);
    var rest := EncodeRows(others, cols, pad, rows - 1) + after;
    var s := EncodeRows(ps, cols, pad, rows) + after;
    assert s == bytes + (zeros + rest) by {
      ConcatAssoc(bytes, zeros, EncodeRows(others, cols, pad, rows - 1), after);
    }
    DecodeRowBytes(row, zeros + rest);
    DropPrefix(bytes, zeros + rest);
    DropPrefix(zeros, rest);
    DropDrop(s, |bytes|, |zeros|);
  }

  lemma TakeDrop<T>(s: seq<T>, n: nat)
    requires n <= |s|
    ensures s[..n] + s[n..] == s
  {
  }

  lemma DropPrefix(a: seq<byte>, b: seq<byte>)
    ensures Drop(a + b, |a|) == b
  {
  }

  /** Reading the pixels back from the rows `write` emitted, whatever
      follows them in the stream, gives the pixels that were written. */
  lemma DecodeEncode(ps: seq<Pixel>, w: int, h: int, after: seq<byte>)
    requires w >= 0 && h >= 0 && |ps| == Span(w, h)
    ensures DecodeImage(EncodeImage(ps, w, h) + after, w, h) == ps
  {
    if w > 0 && h > 0 {
      PaddingMatchesSkip(w);
      var pad := Padding(w);
      SpanIsProduct(w, h);
      assert EncodeImage(ps, w, h) == EncodeRows(ps, w, pad, h);
      assert DecodeImage(EncodeImage(ps, w, h) + after, w, h)
          == DecodeRows(EncodeRows(ps, w, pad, h) + after, w, pad, h);
      DecodeEncodeRows(ps, w, pad, h, after);
    } else {
      SpanIsProduct(w, h);
      assert |ps| == 0;
    }
  }

  /** `write` emits one more pixel of a row after the ones before it. */
  lemma {:induction false} RowBytesSnoc(row: seq<Pixel>, p: Pixel)
    ensures RowBytes(row + [p]) == RowBytes(row) + p.Bytes()
  {
    if row != [] {
      assert (row + [p])[1..] == row[1..] + [p];
      RowBytesSnoc(row[1..], p);
    } else {
      assert [] + [p] == [p];
    }
  }

  lemma Assoc3<T>(a: seq<T>, b: seq<T>, c: seq<T>)
    ensures a + (b + c) == (a + b) + c
  {
  }

  lemma ConcatAssoc<T>(a: seq<T>, b: seq<T>, c: seq<T>, d: seq<T>)
    ensures a + (b + c + d) == (a + b) + c + d
    ensures a + b + c + d == a + (b + (c + d))
  {
  }

  /** An image that `ReadImage` produced, written to a file and read back,
      is the same image: same header and same pixels. */
  lemma ReadWriteRead(file: InputFile)
    requires ReadImage(file).Success?
    ensures var img := ReadImage(file).value;
            && Covers(img.pixels, img.header.width, img.header.height)
            && ReadImage(InputFile(true, WriteImage(img, true).value)) == ReadImage(file)
  {
    var img := ReadImage(file).value;
    var h := img.header;
    WriteThenRead(file.bytes, []);
    assert Bytes(h) + [] == Bytes(h);
    WriteImageRead(img);
  }

  /** Writing an image whose header reads back and whose pixel count matches
      its dimensions, then reading the file, gives the image back. */
  lemma WriteImageRead(img: Image)
    requires Readable(img.header) && ImageSize(img.header) >= 0
    requires |img.pixels| == PixelCount(img.header.width, img.header.height)
    ensures Covers(img.pixels, img.header.width, img.header.height)
    ensures ReadImage(InputFile(true, WriteImage(img, true).value)) == Success(img)
  {
    var h := img.header;
    var w, ht := h.width, h.height;
    PixelCountSpan(img.pixels, w, ht);
    var enc := EncodeImage(img.pixels, w, ht);
    var out := Bytes(h) + enc;
    assert WriteImage(img, true).value == out;
    ReadableAnyRest(h, enc);
    assert out[|Bytes(h)|..] == enc + [];
    assert ReadImage(InputFile(true, out)) == Success(Image(h, DecodeImage(enc + [], w, ht)));
    if w >= 0 && ht >= 0 {
      DecodeEncode(img.pixels, w, ht, []);
    }
  }

  /** A pixel sequence of the pixel count covers the image, row by row. */
  lemma PixelCountSpan(ps: seq<Pixel>, w: int, h: int)
    requires |ps| == PixelCount(w, h)
    ensures Covers(ps, w, h)
    ensures w >= 0 && h >= 0 ==> |ps| == Span(w, h)
    ensures w < 0 || h < 0 ==> ps == []
  {
    if w >= 0 && h >= 0 {
      SpanIsProduct(w, h);
    }
  }

  // ---- steps of the row loops of `read` and `write` ----

  /** The bytes of one more pixel of a row follow the bytes of the pixels
      before it. */
  lemma PixelWritten(ps: seq<Pixel>, start: nat, c: nat, out: seq<byte>)
    requires start + c < |ps| && out == RowBytes(ps[start..start + c])
    ensures out + ps[start + c].Bytes() == RowBytes(ps[start..start + c + 1])
  {
    assert ps[start..start + c + 1] == ps[start..start + c] + [ps[start + c]];
    RowBytesSnoc(ps[start..start + c], ps[start + c]);
  }

  /** The row loop of `write` after `row` of `rows` rows: `out`, followed by
      the rows not yet written, is the whole raster. */
  predicate RowsLeft(ps: seq<Pixel>, cols: nat, pad: nat, rows: nat, row: nat, out: seq<byte>)
  {
    && row <= rows
    && Span(cols, row) + Span(cols, rows - row) == Span(cols, rows) <= |ps|
    && out + EncodeRows(ps[Span(cols, row)..], cols, pad, rows - row) == EncodeRows(ps, cols, pad, rows)
  }

  lemma RowsLeftStart(ps: seq<Pixel>, cols: nat, pad: nat, rows: nat)
    requires Span(cols, rows) <= |ps|
    ensures RowsLeft(ps, cols, pad, rows, 0, [])
  {
    assert ps[Span(cols, 0)..] == ps;
  }

  /** A row's bytes and its padding, written after the rows before it, leave
      the rows after it still to be written. */
  lemma RowWritten(ps: seq<Pixel>, cols: nat, pad: nat, rows: nat, row: nat, out: seq<byte>, bytes: seq<byte>)
    requires RowsLeft(ps, cols, pad, rows, row, out) && row < rows
    requires Span(cols, row) + cols <= |ps|
    requires bytes == RowBytes(ps[Span(cols, row)..Span(cols, row) + cols])
    ensures RowsLeft(ps, cols, pad, rows, row + 1, out + bytes + Zeros(pad))
  {
    var start, next := Span(cols, row), Span(cols, row + 1);
    var left, later := rows - row, rows - (row + 1);
    SpanNext(cols, row, row + 1);
    SpanNext(cols, later, left);
    EncodeRowsAt(ps, cols, pad, start, next, left, later);
    Regroup(EncodeRows(ps, cols, pad, rows), out, EncodeRows(ps[start..], cols, pad, left),
            bytes, Zeros(pad), EncodeRows(ps[next..], cols, pad, later));
  }

  /** The rows from pixel `start` on: the first of them, then the rest from
      pixel `next`. */
  lemma EncodeRowsAt(ps: seq<Pixel>, cols: nat, pad: nat, start: nat, next: nat, left: nat, later: nat)
    requires later + 1 == left && next == start + cols && start + Span(cols, left) <= |ps|
    ensures next + Span(cols, later) <= |ps|
    ensures EncodeRows(ps[start..], cols, pad, left)
            == RowBytes(ps[start..start + cols]) + Zeros(pad) + EncodeRows(ps[next..], cols, pad, later)
  {
    SpanNext(cols, later, left);
    var rest := ps[start..];
    assert rest[..cols] == ps[start..start + cols];
    assert rest[cols..] == ps[next..];
  }

  lemma Regroup<T>(whole: seq<T>, front: seq<T>, rest: seq<T>, a: seq<T>, b: seq<T>, c: seq<T>)
    requires whole == front + rest && rest == a + b + c
    ensures front + a + b + c == whole
  {
    ConcatAssoc(front, a, b, c);
  }

  lemma RowsLeftEnd(ps: seq<Pixel>, cols: nat, pad: nat, rows: nat, out: seq<byte>)
    requires RowsLeft(ps, cols, pad, rows, rows, out)
    ensures out == EncodeRows(ps, cols, pad, rows)
  {
  }

  lemma DropNothing(s: seq<byte>)
    ensures Drop(s, 0) == s
  {
    assert s[0..] == s;
  }

  /** After row `r` and its padding the stream is where row `r + 1`
      starts. */
  lemma RowSkipped(s: seq<byte>, cols: nat, skip: nat, r: nat, stream: seq<byte>)
    requires stream == Drop(Drop(RowsConsumed(s, 3 * cols + skip, r), 3 * cols), skip)
    ensures stream == RowsConsumed(s, 3 * cols + skip, r + 1)
  {
    DropDrop(RowsConsumed(s, 3 * cols + skip, r), 3 * cols, skip);
    RowsConsumedSnoc(s, 3 * cols + skip, r);
  }

  /** After row `r` is read, the pixels read so far are `r + 1` rows. */
  lemma RowRead(s: seq<byte>, cols: nat, skip: nat, r: nat, prefix: seq<Pixel>, before: seq<Pixel>, ps: seq<Pixel>)
    requires before == prefix + DecodeRows(s, cols, skip, r)
    requires ps == before + DecodeRow(RowsConsumed(s, 3 * cols + skip, r), cols)
    ensures ps == prefix + DecodeRows(s, cols, skip, r + 1)
  {
    DecodeRowsSnoc(s, cols, skip, r);
    Assoc3(prefix, DecodeRows(s, cols, skip, r), DecodeRow(RowsConsumed(s, 3 * cols + skip, r), cols));
  }

  /** The rows the read loop appends are the pixels `DecodeImage` reads, in
      every case of the dimensions. */
  lemma AppendDecoded(s: seq<byte>, w: int, h: int, cols: nat, skip: nat)
    requires cols == (if w > 0 then w else 0) && skip == ReadSkip(w)
    ensures DecodeRows(s, cols, skip, if h > 0 then h else 0) == DecodeImage(s, w, h)
  {
    if h > 0 && w <= 0 {
      DecodeRowsLength(s, cols, skip, h);
      SpanIsProduct(cols, h);
    }
  }
}
