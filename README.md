# BMP images in two layouts

A model of the image core of `ca_p2`. It covers five parts:

- **The bitmap header codec.** A 54-byte BITMAPFILEHEADER + BITMAPINFOHEADER block, the order in which its fields are checked, and a verbatim round trip of the block and of the extra bytes before the pixel data.
- **The pixel and colour-accumulator value types.**
- **The 3 × 256 colour histogram and its 768-line text form.**
- **The two in-memory bitmaps that share one contract.** `bitmap_aos` holds one vector of pixels; `bitmap_soa` holds one plane per channel. Each supports:
  - read and write, with rows padded to four bytes;
  - indexed get and set;
  - `to_gray` and `is_gray`;
  - the 5 × 5 Gaussian blur;
  - histogram generation.
- **The two lookup tables.** File-error messages, and command-line subcommands with the order in which the arguments are checked.

The model is organised as follows:

- Value types of the source become datatypes: the pixel, the accumulator and the header.
- Objects whose members update them in place become classes:
  - `Histograms.Histogram`, over an `array2<int>`;
  - `Aos.BitmapAos`, a header plus a `seq<Pixel>`;
  - `Soa.BitmapSoa`, a header plus three `seq<byte>` planes.
- Every loop of the source is a `method` with its loop invariants. Each is proved equal to a layout-independent specification function:
  - `RasterCodec.ReadImage`/`WriteImage` for the file format;
  - `Transforms.GrayImage`/`GaussImage` for the transforms;
  - `Histograms.HistogramOf` for the histogram.
- The round trips and the properties of the design are proved about those functions. The SOA layout is tied to the AOS one by `Soa.Merge`, the pixels the three planes spell. As a result:
  - both layouts read the same pixels;
  - both write the same bytes;
  - both blur, gray and count the same way.
- Streams are values. An input file is `InputFile(openable, bytes)`, and a write returns the bytes emitted. Exceptions become `Result`/`Outcome` values that carry the `file_error_kind`, or `LengthError` for the `std::length_error` of `reserve`.
- C++ arithmetic is spelt out: `Machine.TruncDiv`/`TruncMod` for `/` and `%`, and `Machine.Low8` for the `uint8_t` cast.

Modules and files:

- `results.dfy`: `Results`.
- `machine.dfy`: `Machine`.
- `little_endian.dfy`: `LittleEndian`.
- `decimal.dfy`: `Decimal`, the text of `operator<<` on an `int`.
- `file_error.dfy`: `FileErrors`.
- `progargs.dfy`: `ProgArgs`.
- `pixel.dfy`: `Pixels`.
- `bitmap_header.dfy`: `BitmapHeaders`.
- `raster.dfy`: `RasterCodec`.
- `histogram.dfy`: `Histograms`.
- `transforms.dfy`: `Transforms`.
- `bitmap_aos.dfy`: `Aos`.
- `bitmap_soa.dfy`: `Soa`.
- `bitmap_examples.dfy`: `BitmapExamples`, the scenarios of the unit tests stated against both layouts.

## Model

| member | source | states |
|---|---|---|
| Machine.TruncDiv | common/pixel.hpp:35-41 | C++ integer division truncates toward zero: the remainder is smaller than the divisor in magnitude and is zero or has the dividend's sign |
| Machine.TruncDivProduct | common/pixel.hpp:35-41 | the truncated quotient times the divisor never exceeds the dividend in magnitude and leaves a remainder of the dividend's sign |
| Machine.TruncMod | aos/bitmap_aos.hpp:37-39 | C++ `%` is the remainder that goes with the truncating quotient, bounded by the divisor and signed like the dividend |
| Machine.TruncAgrees | aos/bitmap_aos.hpp:37-39 | for a non-negative dividend and positive divisor C++ `/` and `%` agree with Euclidean division |
| Machine.Low8 | common/pixel.hpp:60-62 | `static_cast<uint8_t>` keeps the value modulo 256 and leaves 0..255 unchanged |
| LittleEndian.Decode | common/bitmap_header.cpp:17-21 | a little-endian field of n bytes decodes to a value below 256^n |
| LittleEndian.Encode | common/bitmap_header.cpp:23-28 | the n little-endian bytes of a value decode back to it |
| LittleEndian.EncodeDecode | common/bitmap_header.cpp:17-28 | re-encoding a decoded field gives the same bytes, so decode and encode are inverse |
| LittleEndian.ToSigned | common/bitmap_header.cpp:84-89 | the two's-complement reading of a field lies in the signed range and differs from the unsigned reading by 0 or 256^n |
| LittleEndian.FromSigned | common/bitmap_header.cpp:43-48 | the two's-complement bits of a signed value read back as that value |
| Decimal.NatToString | common/bitmap_header.cpp:67-75 | `operator<<` of a natural emits a non-empty string of digits without leading zero |
| Decimal.NatToStringValue | common/bitmap_header.cpp:67-75 | the digits emitted for a natural have that value |
| Decimal.IntToString | common/bitmap_header.cpp:68-74 | `operator<<` of an `int` is non-empty, starts with '-' exactly for a negative value, and is digits after that sign |
| Decimal.IntToStringParses | common/bitmap_header.cpp:67-75 | the text of an int, with its minus sign, parses back to the int |
| FileErrors.Ordinal | common/file_error.hpp:8-18 | each error kind has its declaration position 0..8 as value |
| FileErrors.FromOrdinal | common/file_error.hpp:8-18 | exactly the values 0..8 name an enumerator, and the one they name has that value |
| FileErrors.ToString | common/file_error.cpp:5-28 | "Unknown error" is returned exactly for values that name no enumerator; nine fixed messages otherwise |
| FileErrors.OrdinalInjective | common/file_error.hpp:8-18 | the value of a kind gives back the kind, and distinct kinds have distinct values |
| FileErrors.MessagesDistinct | common/file_error.cpp:7-24 | the nine messages are pairwise distinct |
| FileErrors.ToStringExamples | utest/file_error_test.cpp:4-62 | `cannot_open` and `invalid_pixel_start` give their messages, `-1` gives "Unknown error" |
| ProgArgs.ToSubcommand | common/progargs.cpp:61-66 | a found subcommand is the one whose name was looked up; `std::nullopt` comes back only for a string that is no subcommand's name |
| ProgArgs.ToSubcommandNames | common/progargs.cpp:12-18 | a string maps to a subcommand exactly when it is that subcommand's name, so distinct names give distinct subcommands and no other string gives any |
| ProgArgs.ToSubcommandExamples | common/progargs.cpp:61-66 | "copy", "histo", "mono", "gauss", "info" map to their subcommands and "error" to none |
| ProgArgs.ParseArguments | common/progargs.cpp:68-88 | each of the four failures happens exactly when its check is the first to fail (count, input path, output path, operation); success gives `(args[1], args[2], to_subcommand(args[3]))` |
| ProgArgs.ParseArgumentsExamples | utest/progargs_test.cpp:40-79 | the argument vectors of the tests give their expected errors and configuration |
| Pixels.Pixel.Bytes | common/pixel.hpp:11-13 | a pixel is stored blue, green, red at the channel indices 0, 1, 2 |
| Pixels.Pixel.Channel | common/pixel.hpp:77-87 | `color[ch]` is the stored byte of that channel |
| Pixels.Pixel.WithRed | common/pixel.hpp:79 | the red setter changes red only |
| Pixels.Pixel.WithGreen | common/pixel.hpp:83 | the green setter changes green only |
| Pixels.Pixel.WithBlue | common/pixel.hpp:87 | the blue setter changes blue only |
| Pixels.Pixel.IsGray | common/pixel.cpp:29-32 | `is_gray` holds exactly when the red channel equals the green and the blue ones, that is when the pixel is (r, r, r) |
| Pixels.Pixel.ToGrayCorrected | common/pixel.cpp:6-9 | the result is gray, its level is the gray level of the pixel's colour |
| Pixels.Pixel.Scale | common/pixel.hpp:68-72 | `p * k` is the accumulator of each channel times k |
| Pixels.FromRgb | common/pixel.hpp:58 | `pixel(r, g, b)` reads back r, g, b through the getters |
| Pixels.ReadPixelBytes | common/pixel.cpp:19-22 | where the stream holds three bytes at a position, `read` there gives the pixel whose stored bytes, blue, green, red, are exactly those |
| Pixels.ReadWritePixel | common/pixel.cpp:19-27 | reading what `write` emitted gives back the pixel, wherever it stands in the stream |
| Pixels.ColorAccumulator.WithChannel | common/pixel.hpp:28-33 | storing one channel of an accumulator leaves the others unchanged |
| Pixels.ColorAccumulator.Plus | common/pixel.hpp:28-33 | `+=` adds channel by channel |
| Pixels.Quotient | common/pixel.hpp:35-41 | `operator/` divides every channel by the factor with C++'s truncating division |
| Pixels.Divide | common/pixel.hpp:35-41 | the copy-and-divide loop gives each channel truncated-divided by the factor |
| Pixels.FromAccumulator | common/pixel.hpp:60-62 | conversion from an accumulator keeps each channel's low eight bits, so channels in 0..255 are kept exactly |
| BitmapHeaders.ImageSize | common/bitmap_header.hpp:28-30 | `image_size()` is width × height and fits in `long` |
| BitmapHeaders.ProductBound | common/bitmap_header.hpp:28-30 | a product of two `int`s fits in 64 bits |
| BitmapHeaders.Bits32 | common/bitmap_header.cpp:43-48 | the bits an `int` field is stored as read back as that `int` |
| BitmapHeaders.Bits16 | common/bitmap_header.cpp:46 | the bits of an `int16_t` read back as it |
| BitmapHeaders.FieldBytes32 | common/bitmap_header.cpp:17-28 | `get_value<uint32_t>` and `get_value<int>` of a 4-byte field, stored again by `set_value`, give back the field's bytes, so the getters lose nothing |
| BitmapHeaders.FieldBytes16 | common/bitmap_header.cpp:17-28 | the same for `get_value<int16_t>` and `get_value<uint16_t>` of a 2-byte field |
| BitmapHeaders.ChecksAsBytes | common/bitmap_header.cpp:82-93 | the magic, planes, bit-count and compression checks of `read` pass exactly when the block holds "BM", the bytes 1 0, the bytes 24 0 and four zero bytes at their offsets |
| BitmapHeaders.BlockFields | common/bitmap_header.cpp:84-89 | a raw block built from field values decodes at the source's offsets to those values |
| BitmapHeaders.Store | common/bitmap_header.cpp:23-28 | a 4-byte store writes the value's little-endian bytes at the offset and no other byte |
| BitmapHeaders.SetValue | common/bitmap_header.cpp:23-28 | `set_value` on the array in place has the effect of `Store` |
| BitmapHeaders.NewHeader | common/bitmap_header.cpp:40-49 | `bitmap_header(w, h)` holds pixel start 54, width w, height h, one plane, 24 bits, no compression, a zero magic and no extra bytes, and its block decodes to those fields |
| BitmapHeaders.ConstructedBlock | common/bitmap_header.cpp:43-48 | the six overlapping stores of the constructor give the block with those field values |
| BitmapHeaders.ConstantEncodings | common/bitmap_header.cpp:46-48 | the constant fields the constructor stores have the expected bytes |
| BitmapHeaders.ExtraSize | common/bitmap_header.cpp:95-96 | the extra size is non-negative exactly when the signed pixel start is at least 54 |
| BitmapHeaders.ExtraSizeAsWritten | common/bitmap_header.cpp:95 | the wrapped `int` subtraction agrees with the exact one except for pixel starts within 54 of -2^31 |
| BitmapHeaders.ExtraSizeOverflow | common/bitmap_header.cpp:95-96 | pixel start 0x80000000 gives a positive wrapped extra size although the exact one is negative |
| BitmapHeaders.Read | common/bitmap_header.cpp:77-100 | each error happens exactly when its check is the first to fail (short block, magic, planes, bit count, compression, pixel start, short extra); success decodes the fields at their offsets and keeps the raw block and exactly pixel_start − 54 extra bytes |
| BitmapHeaders.ReadInto | common/bitmap_header.cpp:51-57 | the header object after `read`, success or not: a short stream stores what it holds; the raw block, then the six fields, then the extra size and then the resized, partly filled extra buffer are each stored before the check that follows them |
| BitmapHeaders.ReadIntoSucceeds | common/bitmap_header.cpp:84-99 | after a successful `read` the header is the one `Read` decodes, whatever the header held before |
| BitmapHeaders.ReadIntoShortExtra | common/bitmap_header.cpp:97-99 | a stream too short for the extra bytes leaves the buffer resized to the extra size, holding the bytes present and then the old contents or zeros |
| BitmapHeaders.Resized | common/bitmap_header.cpp:97 | `vector::resize` keeps the first elements and pads with zeros |
| BitmapHeaders.Bytes | common/bitmap_header.cpp:102-105 | `write` emits 54 bytes plus the extra buffer |
| BitmapHeaders.Write | common/bitmap_header.cpp:59-65 | the write fails with `cannot_write` exactly on a bad stream, and otherwise emits the raw block then the extra bytes |
| BitmapHeaders.ReadThenWrite | common/bitmap_header.cpp:102-105 | a header read from a stream is written back as exactly the bytes read consumed |
| BitmapHeaders.WriteThenRead | common/bitmap_header.cpp:77-105 | reading what `write` emitted for a read header, followed by anything, gives that header again |
| BitmapHeaders.ReadableAnyRest | common/bitmap_header.cpp:77-105 | a header that reads back from its bytes does so whatever follows it |
| BitmapHeaders.TestStreamFields | utest/bitmap_header_test.cpp:22-31 | the test streams decode to the bytes the tests poke into them |
| BitmapHeaders.ReadRejectExamples | utest/bitmap_header_test.cpp:6-56 | the streams too short, with a bad magic, two planes, or compression 1 fail with those errors; the bit-count test's stream has pixel start 0, passes the bit-count check and fails with `invalid_pixel_start` (stated by `ReadPixelStartExamples`) |
| BitmapHeaders.ReadPixelStartExamples | utest/bitmap_header_test.cpp:86-98 | pixel start 0 and 50 fail with `invalid_pixel_start`; the first case is also the stream of the bit-count test at utest/bitmap_header_test.cpp:33-43 |
| BitmapHeaders.ReadAcceptExamples | utest/bitmap_header_test.cpp:58-84 | pixel start 54 reads with no extra bytes and pixel start 100 with 46 |
| BitmapHeaders.WriteExamples | utest/bitmap_header_test.cpp:100-122 | the 100-byte stream is written back unchanged and a bad stream makes `write` throw |
| BitmapHeaders.ReadAnyDimensions | common/bitmap_header.cpp:84-99 | `read` checks neither dimension: a well-formed block reads with whatever width and height it holds, both negative included |
| BitmapHeaders.PrintInfoNumbersParse | common/bitmap_header.cpp:68-74 | the decimal text of each of the seven fields parses back as the field; the lines themselves are `ParseInfoPrintInfo`'s |
| BitmapHeaders.InfoEntries | common/bitmap_header.cpp:67-75 | `print_info` reports seven labelled fields |
| BitmapHeaders.InfoLines | common/bitmap_header.cpp:67-75 | a report has one line per entry |
| BitmapHeaders.ParseInfoLineOf | common/bitmap_header.cpp:68-74 | one report line `    label: value` followed by any parsable text reads back as (label, value) and then the rest |
| BitmapHeaders.ParseReport | common/bitmap_header.cpp:67-75 | a report of entries whose labels hold no ':' or line break reads back as exactly those entries, in order |
| BitmapHeaders.PrintInfoIsReport | common/bitmap_header.cpp:67-75 | `print_info` writes the lines of its seven entries one after the other |
| BitmapHeaders.ParseInfoPrintInfo | common/bitmap_header.cpp:67-75 | the text `print_info` writes reads back as its seven labels, in order, each with the value of the field it reports |
| BitmapHeaders.PrintInfoDetermines | common/bitmap_header.cpp:67-75 | two headers with the same report agree on all seven reported fields |
| BitmapHeaders.PrintInfoExample | utest/bitmap_test.cpp:32-34 | the 1980 × 1320 header with 84 extra bytes prints the seven lines the test expects |
| RasterCodec.PixelCount | aos/bitmap_aos.cpp:21-26 | the nested loops of `read` visit width × height positions, none when a dimension is not positive |
| RasterCodec.PixelCountIsImageSize | common/bitmap_header.hpp:28-30 | for non-negative dimensions that count is `image_size()` |
| RasterCodec.SpanIsProduct | aos/bitmap_aos.cpp:128-130 | counting whole rows of a width gives the product |
| RasterCodec.Padding | aos/bitmap_aos.cpp:50 | the padding `write` appends is 0..3 bytes |
| RasterCodec.RowExtra | aos/bitmap_aos.cpp:18 | `(width * 3) % 4` with C++'s remainder lies in −3..3 |
| RasterCodec.ReadSkip | aos/bitmap_aos.cpp:18-29 | the bytes `read` skips after a row, `4 - (width * 3) % 4` when that remainder is not zero, lie in 0..7, and in 0..3 for a non-negative width |
| RasterCodec.PaddingMatchesSkip | aos/bitmap_aos.cpp:27-29 | for a non-negative width the bytes `read` skips equal the padding `write` emits, and they round a row up to a multiple of four |
| RasterCodec.DecodeRow | aos/bitmap_aos.cpp:22-26 | a row read from the stream has width pixels |
| RasterCodec.DecodeImage | aos/bitmap_aos.cpp:21-30 | the pixels `read` appends number as many as the loops visit |
| RasterCodec.DecodeRowsLength | aos/bitmap_aos.cpp:21-30 | `DecodeRows` reads cols pixels for each of its rows |
| RasterCodec.DecodeRowAt | aos/bitmap_aos.cpp:22-26 | pixel c of a row is the one read at byte 3·c of the row |
| RasterCodec.DecodeRowsAt | aos/bitmap_aos.cpp:21-30 | in `DecodeRows`, pixel c of row r is the one read after r whole rows of pixels and skipped bytes, at 3·c into the row |
| RasterCodec.DecodeImageAt | aos/bitmap_aos.cpp:21-30 | pixel r·width + c of the pixels `read` stores is the one read at byte r·(3·width + skip) + 3·c after the header: rows in file order, no flip |
| RasterCodec.ReadPixelDrop | common/pixel.cpp:19-22 | reading a pixel after n bytes were consumed reads n bytes further on in the stream |
| RasterCodec.DecodeRowsSnoc | aos/bitmap_aos.cpp:21-30 | one more row is read where the previous rows and their padding end |
| RasterCodec.ReadImage | aos/bitmap_aos.cpp:10-32 | open failure, each header error, and the length error for a negative `width * height` happen exactly in their cases; success holds the header and h rows of w pixels read after it |
| RasterCodec.RowBytes | aos/bitmap_aos.cpp:52-55 | a row is written as three bytes per pixel |
| RasterCodec.EncodeRowsLength | aos/bitmap_aos.cpp:50-57 | `EncodeRows` emits 3·cols + pad bytes for each row |
| RasterCodec.EncodeImageLength | aos/bitmap_aos.cpp:49-57 | the pixel section `write` emits (`EncodeImage`) is height rows of 3·width bytes plus the padding, for a non-positive width rows of padding only |
| RasterCodec.WriteImage | aos/bitmap_aos.cpp:42-58 | the write fails exactly when the file cannot be opened, and otherwise starts with the header's bytes |
| RasterCodec.DecodeRowBytes | common/pixel.cpp:19-27 | a row reads back from the bytes written for it |
| RasterCodec.DecodeEncodeRows | aos/bitmap_aos.cpp:21-30 | the rows read back from the rows written with their padding |
| RasterCodec.DecodeEncode | aos/bitmap_aos.cpp:49-57 | the pixels read back from the raster written, whatever follows it |
| RasterCodec.RowBytesSnoc | aos/bitmap_aos.cpp:52-55 | one more pixel's bytes follow the row written so far |
| RasterCodec.RowsLeftStart | aos/bitmap_aos.cpp:50-51 | before the row loop of `write` nothing is written and every row is still to come |
| RasterCodec.RowWritten | aos/bitmap_aos.cpp:51-57 | one more row's bytes and padding, after the rows written so far, leave the rows after it still to be written |
| RasterCodec.EncodeRowsAt | aos/bitmap_aos.cpp:51-57 | the rows from some pixel on are the first of them, its padding, then the rest |
| RasterCodec.RowsLeftEnd | aos/bitmap_aos.cpp:51-57 | after the last row the bytes written are the whole `EncodeRows` raster |
| RasterCodec.ReadWriteRead | utest/bitmap_test.cpp:48-62 | an image read from a file, written and read again, is the same image |
| RasterCodec.WriteImageRead | aos/bitmap_aos.cpp:10-58 | an image with a readable header and the right pixel count reads back from what `write` emits |
| RasterCodec.PixelCountSpan | aos/bitmap_aos.cpp:21-26 | pixels of the pixel count cover every `(row, column)` of the image |
| RasterCodec.RowSkipped | aos/bitmap_aos.cpp:27-29 | after a row and its skipped padding the stream is where the next row starts |
| RasterCodec.RowRead | aos/bitmap_aos.cpp:22-26 | after a row is read the pixels read so far are one more row |
| RasterCodec.AppendDecoded | aos/bitmap_aos.cpp:18-30 | the rows the loop reads are `DecodeImage`, in every case of the dimensions |
| Histograms.SumIncrement | common/histogram.hpp:18-22 | one more count in a bucket is one more in the channel's total |
| Histograms.Increment | common/histogram.hpp:18-22 | `channels[ch][v]++` raises that counter by one, keeps every other counter and raises the channel total by one |
| Histograms.AddColorCounts | common/histogram.cpp:6-10 | `add_color` raises the red, green and blue buckets of the pixel by one and nothing else; each channel total grows by one |
| Histograms.Count | aos/bitmap_aos.cpp:107-114 | how many pixels have a level in a channel, at most the pixel count |
| Histograms.HistogramOf | aos/bitmap_aos.cpp:107-114 | the counters after adding the pixels in order |
| Histograms.HistogramOfEmpty | common/histogram.hpp:40-42 | a new histogram is all zero |
| Histograms.HistogramOfAppend | common/histogram.cpp:6-10 | adding one more pixel to the histogram of some pixels gives the histogram of all of them |
| Histograms.CountConcat | aos/bitmap_aos.cpp:107-114 | counts over concatenated pixels add up |
| Histograms.HistogramTotals | aos/bitmap_aos.cpp:107-114 | every channel of a histogram sums to the number of pixels added |
| Histograms.CountUpdate | aos/bitmap_aos.cpp:124-126 | replacing a pixel moves one count from its old level to its new level |
| Histograms.CountConstant | aos/bitmap_aos.cpp:7-8 | copies of one pixel count all at its level and none elsewhere |
| Histograms.Counted | aos/bitmap_aos.cpp:109-110 | `generate_histogram` adds some pixels exactly when both dimensions are positive or both negative, and then width × height of them |
| Histograms.HistogramStep | aos/bitmap_aos.cpp:110-112 | one more loop step adds the next pixel to the histogram of the pixels before it |
| Histograms.ChannelOfBlock | common/histogram.cpp:12-22 | the blocks of 256 lines are red, then green, then blue |
| Histograms.ChannelText | common/histogram.cpp:13-15 | a range-for over a channel writes one line per counter in level order |
| Histograms.Text | common/histogram.cpp:12-22 | `write` emits 768 lines |
| Histograms.TextLine | common/histogram.cpp:12-22 | line 256·b + v holds counter v of block b's channel and parses back to it |
| Histograms.Histogram.Counts | common/histogram.hpp:40-42 | the counters as values, three rows of 256 |
| Histograms.Histogram.constructor | common/histogram.hpp:14 | a new histogram has every counter at zero |
| Histograms.Histogram.Bump | common/histogram.hpp:18-22 | the in-place increment of one counter |
| Histograms.Histogram.AddRed | common/histogram.hpp:18 | `add_red` increments only the red counter of that level |
| Histograms.Histogram.AddGreen | common/histogram.hpp:20 | `add_green` increments only the green counter of that level |
| Histograms.Histogram.AddBlue | common/histogram.hpp:22 | `add_blue` increments only the blue counter of that level |
| Histograms.Histogram.AddColor | common/histogram.cpp:6-10 | `add_color` has the effect of `AddColorCounts` |
| Histograms.Histogram.RedFrequency | common/histogram.hpp:24-26 | the red counter of a level |
| Histograms.Histogram.GreenFrequency | common/histogram.hpp:28-30 | the green counter of a level |
| Histograms.Histogram.BlueFrequency | common/histogram.hpp:32-34 | the blue counter of a level |
| Histograms.Histogram.Write | common/histogram.cpp:12-22 | the three loops emit the text of the counters |
| Histograms.Histogram.WriteChannel | common/histogram.cpp:13-15 | one loop appends the lines of one channel |
| Histograms.TextAt | common/histogram.cpp:12-22 | every line of the text is the line of the counter it stands for |
| Histograms.TextOfOneLevel | utest/histogram_test.cpp:18-33 | counters that are n at one level of every channel print n on that level's three lines and 0 on the rest |
| Histograms.GrayAddedTwice | utest/histogram_test.cpp:18-33 | a gray colour added twice counts 2 at its level in each channel and nowhere else |
| Histograms.DefaultWriteExample | utest/histogram_test.cpp:4-16 | a new histogram prints 768 zero lines |
| Histograms.AddColorTwice | utest/histogram_test.cpp:18-33 | writing a histogram with a colour added twice prints its counters |
| Histograms.AddTwice | utest/histogram_test.cpp:18-33 | `add_color` twice applies `AddColorCounts` twice |
| Histograms.AddColorExample | utest/histogram_test.cpp:18-33 | after (10, 10, 10) twice, lines 10, 266 and 522 read 2 and all others 0 |
| Transforms.GrayImage | aos/bitmap_aos.cpp:60-65 | `to_gray` keeps the pixel count and makes every pixel the gray pixel of its own gray level |
| Transforms.GrayHistogram | aos/bitmap_aos.cpp:107-114 | a gray image has three equal histogram rows |
| Transforms.GrayCounts | common/pixel.cpp:29-32 | in a gray image each level counts the same in all three channels |
| Transforms.GrayImageIsGray | utest/bitmap_test.cpp:77-86 | after `to_gray` every pixel is gray, whatever the gray level function |
| Transforms.KernelNormalised | aos/bitmap_aos.cpp:76-79 | the 25 weights are positive and sum to the norm 273 |
| Transforms.KernelPositive | aos/bitmap_aos.cpp:76-77 | every kernel weight is positive |
| Transforms.KernelSum | aos/bitmap_aos.cpp:76-79 | the kernel weights sum to 273 |
| Transforms.IndexIsSpan | aos/bitmap_aos.cpp:128-130 | `index(r, c)` is r whole rows and then c |
| Transforms.InImage | aos/bitmap_aos.cpp:120-122 | a row and column inside the image index a stored pixel |
| Transforms.Taps | aos/bitmap_aos.cpp:90-101 | one accumulator per kernel tap |
| Transforms.TapSumNext | aos/bitmap_aos.cpp:90-100 | `TapSum` after one more kernel step is the sum so far plus `Tap` of that step |
| Transforms.Position | aos/bitmap_aos.hpp:37-39 | `get_pixel_position` gives a row and column whose `index` is the argument |
| Transforms.PositionOfIndex | aos/bitmap_aos.hpp:37-39 | inside the image `get_pixel_position` inverts `index` |
| Transforms.GaussImage | aos/bitmap_aos.cpp:83-105 | the blur keeps the pixel count |
| Transforms.TotalBounds | aos/bitmap_aos.cpp:100 | a sum of taps each within its weight times m is within the total weight times m |
| Transforms.TotalShort | aos/bitmap_aos.cpp:93-96 | a skipped tap of positive weight leaves the sum at least m short |
| Transforms.TotalScaled | aos/bitmap_aos.cpp:100 | one pixel scaled by each weight sums to it scaled by the total weight |
| Transforms.TotalZeros | aos/bitmap_aos.cpp:100 | zero taps leave the sum unchanged |
| Transforms.TotalSparse | aos/bitmap_aos.cpp:100 | a sum whose terms are zero but two is those two |
| Transforms.TapBound | aos/bitmap_aos.cpp:91-100 | `Tap` adds between nothing and its weight times the brightest level, whether it is skipped or reads a pixel |
| Transforms.TapsWithin | aos/bitmap_aos.cpp:90-101 | every tap stays within its weight times the brightest level |
| Transforms.TapSumBounds | aos/bitmap_aos.cpp:90-101 | `TapSum`, the accumulator after any number of kernel steps, never leaves 0 .. weight × brightest level |
| Transforms.BlurBounded | aos/bitmap_aos.cpp:89-102 | no channel of `Blur` wraps in the `uint8_t` cast, and each is at most the brightest level of that channel |
| Transforms.QuotientChannel | aos/bitmap_aos.cpp:102 | a channel at most 273 × m divides to at most m and survives the cast |
| Transforms.TapsUniform | aos/bitmap_aos.cpp:90-101 | away from the edges every tap of a uniform image is inside and is the pixel times its weight |
| Transforms.BlurUniform | aos/bitmap_aos.cpp:83-105 | the blur leaves a uniform image unchanged two or more pixels from every edge |
| Transforms.ScaleByNorm | aos/bitmap_aos.cpp:102 | a pixel scaled by 273 and divided by 273 is itself |
| Transforms.BlurEdgeDarkens | aos/bitmap_aos.cpp:93-96 | within two pixels of an edge the blur of a uniform image is strictly darker in every channel of level at least 1, because skipped taps still count in the divisor |
| Transforms.CornerDarkerThanInterior | aos/bitmap_aos.cpp:83-105 | on a uniform image of at least 5 × 5 the corner blurs strictly darker than pixel (2, 2), which keeps its level |
| Transforms.TapOfUnique | aos/bitmap_aos.cpp:91-95 | each window position is read by one tap only |
| Transforms.TapReads | aos/bitmap_aos.cpp:91-100 | for every position inside the image and the 5 × 5 window, `Tap` of the kernel entry at its offset adds that pixel times that entry |
| Transforms.TapBlack | aos/bitmap_aos.cpp:98-100 | a tap over a black pixel adds nothing |
| Transforms.SparseBlur | aos/bitmap_aos.cpp:83-105 | a window that is black except at two positions blurs to those two pixels, weighted by their kernel entries, divided by 273 |
| Transforms.TapSumSparse | aos/bitmap_aos.cpp:90-101 | the accumulator of such a window is those two weighted pixels |
| Transforms.TapsBlack | aos/bitmap_aos.cpp:90-101 | every other tap of such a window adds nothing |
| Aos.BitmapAos.Value | aos/bitmap_aos.hpp:19 | the value the defaulted `operator==` compares: header and all pixels |
| Aos.BitmapAos.constructor | aos/bitmap_aos.hpp:16 | a default bitmap is 0 × 0 with a default header and no pixels |
| Aos.BitmapAos.Sized | aos/bitmap_aos.cpp:7-8 | `bitmap_aos(w, h)` has the header `bitmap_header(w, h)` and w·h black pixels |
| Aos.BitmapAos.Width | aos/bitmap_aos.hpp:29 | `width()` is the header's width |
| Aos.BitmapAos.Height | aos/bitmap_aos.hpp:31 | `height()` is the header's height |
| Aos.BitmapAos.GetSize | aos/bitmap_aos.hpp:33-35 | `get_size()` is (width, height) |
| Aos.BitmapAos.GetPixelPosition | aos/bitmap_aos.hpp:37-39 | `get_pixel_position(k)` is a row and column whose index is k, the column inside the width |
| Aos.BitmapAos.PixelIndex | aos/bitmap_aos.cpp:128-130 | `index(r, c)` is r whole rows and then c |
| Aos.BitmapAos.GetPixel | aos/bitmap_aos.cpp:120-122 | `get_pixel(r, c)` is the pixel at row r, column c |
| Aos.BitmapAos.SetPixel | aos/bitmap_aos.cpp:124-126 | `set_pixel(r, c, p)` changes the pixel at that index only |
| Aos.BitmapAos.PrintInfo | aos/bitmap_aos.cpp:116-118 | the bitmap's report is its header's |
| Aos.BitmapAos.Read | aos/bitmap_aos.cpp:10-32 | the outcome is that of `ReadImage`; success appends the pixels read; the header becomes `ReadInto` of the old one whenever the file opens; the bitmap stays valid when the read passes, when it refuses a negative size, or when a valid bitmap's dimensions did not change |
| Aos.BitmapAos.AppendImage | aos/bitmap_aos.cpp:21-30 | the pixel loops of `read` append `DecodeImage` of the stream |
| Aos.BitmapAos.Write | aos/bitmap_aos.cpp:42-58 | `write` emits `WriteImage` of the bitmap |
| Aos.BitmapAos.ToGray | aos/bitmap_aos.cpp:60-65 | `to_gray` replaces the pixels by `GrayImage` of them and keeps the header |
| Aos.BitmapAos.IsGray | aos/bitmap_aos.cpp:67-73 | `is_gray` is true exactly when every pixel is gray |
| Aos.BitmapAos.Gauss | aos/bitmap_aos.cpp:83-105 | `gauss` replaces the pixels by `GaussImage` of the old ones and keeps the header |
| Aos.BitmapAos.GenerateHistogram | aos/bitmap_aos.cpp:107-114 | the new histogram is `HistogramOf` the first width × height pixels |
| Aos.BitmapAos.GenerateHistogramCorrected | aos/bitmap_aos.cpp:107-114 | with the loop bound the number of stored pixels, the histogram is `HistogramOf` all of them and every channel counts them all |
| Aos.Accumulate | aos/bitmap_aos.cpp:89-101 | the kernel loop computes the sum of the taps inside the image |
| Aos.HistogramOfFirst | aos/bitmap_aos.cpp:108-113 | the loop adds the first `count` pixels in order |
| Aos.AppendRows | aos/bitmap_aos.cpp:21-30 | the row loops push exactly `DecodeImage` of the stream |
| Aos.AppendRow | aos/bitmap_aos.cpp:22-26 | the column loop pushes one row read from the stream and consumes its bytes |
| Aos.EncodeRaster | aos/bitmap_aos.cpp:50-57 | the row loop emits exactly `EncodeImage` of the pixels |
| Aos.WriteRow | aos/bitmap_aos.cpp:52-55 | the pixel loop emits the bytes of one row |
| Aos.CountedMatchesPixelCount | aos/bitmap_aos.cpp:109-110 | the loop bound of `generate_histogram` is the number of pixels the loops of `read` (aos/bitmap_aos.cpp:21-22) store exactly when the dimensions are not both negative |
| Aos.NegativeDimensionsStoreNothing | aos/bitmap_aos.cpp:21-30 | a read that passes with both dimensions negative stores no pixel, while the histogram loop bound is positive |
| Aos.HistogramBoundPastPixels | aos/bitmap_aos.cpp:109-112 | the header of width -2 and height -3 reads as an image with no pixels, and `generate_histogram` would add 6 |
| Soa.Merge | soa/bitmap_soa.cpp:142-145 | pixel k of the planes is entry k of each plane |
| Soa.Plane | soa/bitmap_soa.cpp:29-31 | the plane of a channel holds that level of every pixel |
| Soa.MergePlanes | soa/bitmap_soa.cpp:29-31 | splitting pixels into planes and merging them gives back the pixels |
| Soa.PlanesMerge | soa/bitmap_soa.cpp:142-145 | merging planes and splitting the pixels gives back the planes |
| Soa.MergeInjective | soa/bitmap_soa.hpp:19 | comparing the planes, as `operator==` does, is comparing the pixels they spell |
| Soa.MergeUpdate | soa/bitmap_soa.cpp:147-151 | writing three levels at entry k sets pixel k |
| Soa.MergeSnoc | soa/bitmap_soa.cpp:29-31 | pushing three levels appends the pixel |
| Soa.BitmapSoa.Pixels | soa/bitmap_soa.hpp:52 | the pixels the three planes spell |
| Soa.BitmapSoa.Value | soa/bitmap_soa.hpp:19 | the value `operator==` compares: header and merged pixels |
| Soa.BitmapSoa.constructor | soa/bitmap_soa.hpp:16 | a default bitmap is 0 × 0 with empty planes |
| Soa.BitmapSoa.Sized | soa/bitmap_soa.cpp:7-11 | `bitmap_soa(w, h)` has the header `bitmap_header(w, h)` and three planes of w·h zero levels |
| Soa.BitmapSoa.Width | soa/bitmap_soa.hpp:29 | `width()` is the header's width |
| Soa.BitmapSoa.Height | soa/bitmap_soa.hpp:31 | `height()` is the header's height |
| Soa.BitmapSoa.GetSize | soa/bitmap_soa.hpp:33-35 | `get_size()` is (width, height) |
| Soa.BitmapSoa.GetPixelPosition | soa/bitmap_soa.hpp:37-39 | `get_pixel_position(k)` is a row and column whose index is k |
| Soa.BitmapSoa.PixelIndex | soa/bitmap_soa.cpp:153-155 | `index(r, c)` is r whole rows and then c |
| Soa.BitmapSoa.PixelAt | soa/bitmap_soa.cpp:142-145 | `get_pixel(i)` is (red[i], green[i], blue[i]) |
| Soa.BitmapSoa.GetPixel | soa/bitmap_soa.cpp:132-135 | `get_pixel(r, c)` is the pixel at row r, column c |
| Soa.BitmapSoa.SetPixelAt | soa/bitmap_soa.cpp:147-151 | `set_pixel(i, p)` writes exactly the three entries i |
| Soa.BitmapSoa.SetPixel | soa/bitmap_soa.cpp:137-140 | `set_pixel(r, c, p)` changes the pixel at that index only |
| Soa.BitmapSoa.PrintInfo | soa/bitmap_soa.cpp:128-130 | the bitmap's report is its header's |
| Soa.BitmapSoa.Read | soa/bitmap_soa.cpp:13-38 | the outcome is that of `ReadImage`; success appends the pixels read to the planes; the header becomes `ReadInto` of the old one whenever the file opens, as for the AOS layout |
| Soa.BitmapSoa.AppendImage | soa/bitmap_soa.cpp:25-36 | the row loops push the levels of `DecodeImage` of the stream |
| Soa.BitmapSoa.Write | soa/bitmap_soa.cpp:48-63 | `write` emits `WriteImage` of the merged pixels, the same bytes as the AOS layout |
| Soa.BitmapSoa.ToGray | soa/bitmap_soa.cpp:65-74 | `to_gray` makes the first `image_size()` pixels gray and keeps the others |
| Soa.BitmapSoa.IsGrayAsWritten | soa/bitmap_soa.cpp:76-83 | `is_gray` as written is true exactly when the first three pixels are gray |
| Soa.BitmapSoa.IsGray | soa/bitmap_soa.cpp:76-83 | `is_gray` with the loop over the pixels is true exactly when every pixel is gray |
| Soa.BitmapSoa.Gauss | soa/bitmap_soa.cpp:93-115 | `gauss` replaces the planes by those of `GaussImage` of the merged pixels |
| Soa.BitmapSoa.GenerateHistogram | soa/bitmap_soa.cpp:117-126 | the `add_red`/`add_green`/`add_blue` loop gives `HistogramOf` the first width × height merged pixels, as `add_color` does for the AOS layout |
| Soa.BitmapSoa.GenerateHistogramCorrected | soa/bitmap_soa.cpp:117-126 | with the loop bound the number of stored entries, the histogram is `HistogramOf` all merged pixels and every channel counts them all |
| Soa.CountedIsPixelCount | soa/bitmap_soa.cpp:66-67 | for a non-negative width `to_gray` runs over exactly the pixels `read` stored |
| Soa.AppendPlanes | soa/bitmap_soa.cpp:25-36 | the row loop pushes the levels of `DecodeImage` |
| Soa.AppendPlanesRow | soa/bitmap_soa.cpp:26-32 | the column loop pushes the levels of one row |
| Soa.EncodePlanes | soa/bitmap_soa.cpp:55-62 | the row loop emits `EncodeImage` of the merged pixels |
| Soa.WritePlanesRow | soa/bitmap_soa.cpp:57-60 | the pixel loop emits the bytes of one row |
| Soa.GrayPlanes | soa/bitmap_soa.cpp:67-73 | the loop grays entries 0 .. max of the planes |
| Soa.GaussPlanes | soa/bitmap_soa.cpp:97-113 | the loop fills the copy with the blur of the original pixels |
| Soa.AccumulatePlanes | soa/bitmap_soa.cpp:99-111 | the kernel loop over `get_pixel(index(i, j))` computes the tap sum |
| Soa.HistogramOfPlanes | soa/bitmap_soa.cpp:118-125 | the loop adds the first `count` merged pixels |
| Soa.IsGrayAsWrittenMissesLastPixel | soa/bitmap_soa.cpp:77 | a 2 × 2 raster with only its last pixel red passes the three-pixel check but is not gray |
| Soa.IsGrayAsWrittenIsPrefix | soa/bitmap_soa.cpp:77 | the as-written check is implied by the full one and equals it for exactly three pixels |
| BitmapExamples.AosConstructExample | utest/bitmap_test.cpp:14-19 | a default AOS bitmap is 0 × 0 |
| BitmapExamples.AosReadMissingExample | utest/bitmap_test.cpp:37-46 | reading a missing file fails with `cannot_open` and leaves the AOS bitmap 0 × 0 |
| BitmapExamples.AosWriteExample | utest/bitmap_test.cpp:48-62 | an AOS bitmap written and read back compares equal |
| BitmapExamples.AosReadFile | aos/bitmap_aos.cpp:10-32 | a new AOS bitmap that reads a file holds the image read |
| BitmapExamples.AosWriteInvalidExample | utest/bitmap_test.cpp:64-75 | writing to a file that cannot be opened fails with `cannot_open` |
| BitmapExamples.AosToGrayExample | utest/bitmap_test.cpp:77-86 | after `to_gray` the AOS `is_gray` holds |
| BitmapExamples.AosHistogramExample | utest/bitmap_test.cpp:88-101 | the 4 × 4 test gives red[128] = 5, red[0] = 11, green[127] = 2, green[0] = 14, blue[0] = 16 |
| BitmapExamples.HistogramTestBitmap | utest/bitmap_test.cpp:89-94 | the six `set_pixel` calls paint the test raster |
| BitmapExamples.HistogramTestCounts | utest/bitmap_test.cpp:95-100 | the test raster has the counts the test reads |
| BitmapExamples.AosGaussExample | utest/bitmap_test.cpp:103-114 | the blurred 10 × 10 test bitmap has (19,19,19), (12,12,12), (3,3,3) and (39,0,0) at the pixels the test reads |
| BitmapExamples.GaussTestBlurs | utest/bitmap_test.cpp:108-113 | the four blurred pixels of the test raster |
| BitmapExamples.CornerBlur | utest/bitmap_test.cpp:110-111 | pixels (0, 0) and (0, 1) blur to the gray levels 19 and 12 |
| BitmapExamples.MiddleBlur | utest/bitmap_test.cpp:113 | pixel (5, 5) blurs to (39, 0, 0) |
| BitmapExamples.SoaConstructExample | utest/bitmap_test.cpp:14-19 | a default SOA bitmap is 0 × 0 |
| BitmapExamples.SoaReadMissingExample | utest/bitmap_test.cpp:37-46 | reading a missing file fails with `cannot_open` and leaves the SOA bitmap 0 × 0 |
| BitmapExamples.SoaWriteExample | utest/bitmap_test.cpp:48-62 | an SOA bitmap written and read back compares equal plane by plane |
| BitmapExamples.SoaWriteInvalidExample | utest/bitmap_test.cpp:64-75 | writing to a file that cannot be opened fails with `cannot_open` |
| BitmapExamples.SoaToGrayExample | utest/bitmap_test.cpp:77-86 | after `to_gray` the SOA `is_gray` holds for a read bitmap of non-negative width |
| BitmapExamples.SoaHistogramExample | utest/bitmap_test.cpp:88-101 | the SOA layout gives the same five counts |
| BitmapExamples.SoaGaussExample | utest/bitmap_test.cpp:103-114 | the SOA layout gives the same four blurred pixels |
| BitmapExamples.SoaIsGrayAsWrittenExample | soa/bitmap_soa.cpp:76-83 | on a 2 × 2 bitmap with a red last pixel, `is_gray` as written reports gray and the loop over every pixel does not |

## Left out

- The gray level of a colour is computed in floating point (common/pixel.cpp:11-17, common/normalized_pixel.cpp). `Pixels.GrayLevel` is a parameter of every member that uses it, with no interpretation. So `ToGrayCorrected`, `GrayImage` and both `ToGray` methods hold for every gray-level function, and the test values of utest/pixel_test.cpp:31-78 are not stated.
- Streams, `std::filesystem` and program exit are replaced by parameters. A file is `InputFile(openable, bytes)`, and `PathExists` stands for `fs::exists`. `print_format_help`, the help and error text, and `std::exit` become an `ArgumentError` result.
- The driver `common/imgcmd.hpp` (timing, directory iteration, dispatch, console output), `main` and `print_diff` are not part of this model.
- The SOA storage is an array of three vectors indexed by the channel constants (soa/bitmap_soa.hpp:52). `Soa.BitmapSoa` holds them as three named fields `blue`, `green` and `red`, and the index is resolved in each member. So the model does not capture a loop over that array. The source loops over that array in two places. One is `is_gray`'s bound `std::ssize(pixels)`, which is the constant `NumChannels` in `Soa.BitmapSoa.IsGrayAsWritten`. The other is the `reserve` of every plane in `read` (soa/bitmap_soa.cpp:22-24), which the model keeps only as its failure, the `LengthError` case of a negative size.
- Aos.BitmapAos.Read: does not model 32-bit overflow of `height() * width()` (aos/bitmap_aos.cpp:19). The product is exact, so a bitmap whose `int` product wraps negative (such as 46341 × 46341) reads its pixels instead of throwing from `reserve`. The same holds for `(width() * 3) % 4` (aos/bitmap_aos.cpp:18), which overflows only for widths above 2^31 / 3.
- Soa.BitmapSoa.Read: the same exact products in place of soa/bitmap_soa.cpp:20-21.
- RasterCodec.ReadImage: the length-error check uses the exact product `width * height`, not its 32-bit wrap. `RasterCodec.RowExtra` and `RasterCodec.Padding` likewise use the exact `width * 3`.
- Aos.BitmapAos.Sized: requires `w * h >= 0`. A negative product makes `vector(size_t(w * h))` throw `std::length_error` (aos/bitmap_aos.cpp:7), which a Dafny constructor cannot report. The 32-bit wrap of `w * h` is not modelled either.
- Soa.BitmapSoa.Sized: requires `w * h >= 0`, because a negative `image_size()` throws from `vector(size)` (soa/bitmap_soa.cpp:8-10).
- Aos.BitmapAos.GenerateHistogram: requires `width * height <= |pixels|`, because the loop (aos/bitmap_aos.cpp:109-112) reads that many pixels. A successful read does not ensure it: with both dimensions negative (say -2 × -3) `read` stores no pixel but the product is 6, and the source then indexes an empty vector (see Findings). The bound is also the exact product, not its 32-bit wrap. `Aos.BitmapAos.GenerateHistogramCorrected` needs no such requirement.
- Soa.BitmapSoa.GenerateHistogram: requires `width * height <= |red|`, for the same reason and with the same gap after a read with both dimensions negative (soa/bitmap_soa.cpp:119-124); exact product as well. `Soa.BitmapSoa.GenerateHistogramCorrected` is the version without it.
- Histograms.Histogram.AddColor: the counters are `int` (common/histogram.hpp:40-42) but are modelled unbounded. A count past 2^31 − 1 would overflow in the source. `AddRed`, `AddGreen`, `AddBlue`, `Increment` and `HistogramOf` share this.
- BitmapHeaders.Read: uses the exact `ExtraSize` rather than the `int` subtraction of common/bitmap_header.cpp:95. They differ only for pixel starts 0x80000000 .. 0x80000035, where the source's subtraction is signed overflow (see Findings). `BitmapHeaders.ReadInto` uses the same exact value.
- RasterCodec.WriteImage: never yields `cannot_write`. The header is written to a freshly opened stream, and a stream that opened is taken to stay good. The failure of a good disk stream mid-write is I/O behaviour outside the model, while `BitmapHeaders.Write` models `cannot_write` for a stream already bad.
- Soa.BitmapSoa.IsGrayAsWritten: requires three pixels. On a bitmap with fewer, the source reads past the end of the planes (undefined behaviour), which the model does not represent.
- Soa.BitmapSoa.ToGray: requires `image_size()` pixels to be stored. With fewer, for example after a header error changed the dimensions, the source indexes past the planes.
- Aos.BitmapAos.Gauss and Soa.BitmapSoa.Gauss: require a non-zero width when there are pixels (a division by zero in `get_pixel_position` otherwise). Both also require `Valid()`, every indexed pixel stored, on which the source silently relies.
- ProgArgs.ParseArguments: an empty argument vector is reported as `WrongFormat`. The source's error path passes `args[0]` to the help printer, which reads out of bounds when there are no arguments, and the program name does not appear in the model's result.
- Aos.BitmapAos.Read and Soa.BitmapSoa.Read: after a header error the header is the partly updated one `BitmapHeaders.ReadInto` gives, and it may no longer match the pixels, so `Valid()` need not hold. The source leaves the object in the same state. Its only caller, `generate_output` in common/imgcmd.hpp:34-35, then drops the object with the exception.
- BitmapExamples: the read-based scenarios (`AosWriteExample`, `SoaWriteExample`, `AosWriteInvalidExample`, `SoaWriteInvalidExample`, `SoaToGrayExample`) require the read to succeed. The tests read a real file (`sabatini.bmp`), which is not part of this model. `AosToGrayExample` holds for any read.
- Pixel I/O is unchecked in the source (`noexcept`, common/pixel.cpp:19-27). Bytes past the end of a short pixel section read as zero, and writes of pixels and padding are taken to succeed.

## Findings

| source | as written | input that shows it | evidently intended | confidence | as-written member | corrected member |
|---|---|---|---|---|---|---|
| soa/bitmap_soa.cpp:77 | `is_gray` loops to `std::ssize(pixels)`, the size of the array of three planes, so it inspects pixels 0..2 only | a 2 × 2 bitmap whose pixels are black, black, black, (255, 0, 0): `is_gray` returns true | loop over every pixel, as `bitmap_aos::is_gray` does (bound `std::ssize(pixels[red_channel])`) | not executed | Soa.BitmapSoa.IsGrayAsWritten, Soa.IsGrayAsWrittenMissesLastPixel | Soa.BitmapSoa.IsGray |
| common/bitmap_header.cpp:95 | `static_cast<int>(pixel_start_) - header_size` overflows `int` for pixel starts 0x80000000 .. 0x80000035 | pixel start 0x80000000: on a wrapping machine the extra size is 2^31 − 54, so the `invalid_pixel_start` check passes | the exact difference, negative for that pixel start, so the check rejects it | not executed | BitmapHeaders.ExtraSizeAsWritten, BitmapHeaders.ExtraSizeOverflow | BitmapHeaders.ExtraSize |
| aos/bitmap_aos.cpp:109 | `generate_histogram` (here and at soa/bitmap_soa.cpp:119) loops to `width() * height()`, which is positive when both dimensions are negative, although `read` checks neither dimension and then stores no pixel | a header with width -2, height -3 and pixel start 54: `read` succeeds with no pixels, and `generate_histogram` reads pixels 0..5 of an empty vector | loop over the pixels stored (`std::ssize(pixels)`), or reject negative dimensions in `read` | not executed | Aos.HistogramBoundPastPixels, Aos.NegativeDimensionsStoreNothing, Aos.BitmapAos.GenerateHistogram | Aos.BitmapAos.GenerateHistogramCorrected, Soa.BitmapSoa.GenerateHistogramCorrected |
