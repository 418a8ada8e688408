/** Pixels in the 0..255 scale and the wide per-channel accumulator used by
    the convolution. Both are value types in the source (copied, compared
    member by member), so their mutating members become functions that
    return the updated value. */
module Pixels {
  import opened Machine

  /** Channel indices; a pixel is stored as `[blue, green, red]`. */
  const NumChannels := 3
  const RedChannel := 2
  const GreenChannel := 1
  const BlueChannel := 0

  /** The gamma-corrected gray level of a colour `(r, g, b)`. The source
      computes it in floating point; the model takes it as a parameter. */
  type GrayLevel = (byte, byte, byte) -> byte

  datatype Pixel = Pixel(blue: byte, green: byte, red: byte) {

    /** The storage order, which is also the order `write` emits. */
    function Bytes(): (s: seq<byte>)
      ensures |s| == NumChannels
      ensures s[BlueChannel] == blue && s[GreenChannel] == green && s[RedChannel] == red
    {
      [blue, green, red]
    }

    /** `color[ch]` for a channel index. */
    function Channel(ch: int): (v: byte)
      requires 0 <= ch < NumChannels
      ensures v == Bytes()[ch]
    {
      if ch == BlueChannel then blue else if ch == GreenChannel then green else red
    }

    /** The setters `red(r)`, `green(g)`, `blue(b)`: each changes only its
        own channel. */
    function WithRed(r: byte): (p: Pixel)
      ensures p.red == r && p.green == green && p.blue == blue
    {
      this.(red := r)
    }

    function WithGreen(g: byte): (p: Pixel)
      ensures p.red == red && p.green == g && p.blue == blue
    {
      this.(green := g)
    }

    function WithBlue(b: byte): (p: Pixel)
      ensures p.red == red && p.green == green && p.blue == b
    {
      this.(blue := b)
    }

    /** `is_gray`: the red entry of `color` equals the green and the blue
        ones, so all three channels hold one level. */
    predicate IsGray(): (g: bool)
      ensures g <==> Channel(RedChannel) == Channel(GreenChannel) && Channel(RedChannel) == Channel(BlueChannel)
      ensures g <==> this == Pixel(red, red, red)
    {
      red == green && red == blue
    }

    /** `to_gray_corrected`: all three channels take the gray level of this
        pixel's colour; the pixel itself is a value and stays as it is. */
    function ToGrayCorrected(gray: GrayLevel): (q: Pixel)
      ensures q.IsGray()
      ensures q.red == gray(red, green, blue)
    {
      var level := gray(red, green, blue);
      Pixel(level, level, level)
    }

    /** `operator*`: every channel multiplied by the coefficient, widened. */
    function Scale(coefficient: int): (a: ColorAccumulator)
      ensures a.red == coefficient * red && a.green == coefficient * green
      ensures a.blue == coefficient * blue
    {
      ColorAccumulator(coefficient * blue, coefficient * green, coefficient * red)
    }
  }

  /** The constructor `pixel(r, g, b)`: the getters give back r, g and b. */
  function FromRgb(r: byte, g: byte, b: byte): (p: Pixel)
    ensures p.red == r && p.green == g && p.blue == b
  {
    Pixel(b, g, r)
  }

  /** A value-initialised pixel. */
  const Black := Pixel(0, 0, 0)

  /** A byte of a stream, or 0 past its end: a failed `istream::read` leaves
      the bytes it could not read as they were, and `read` always reads into
      a value-initialised pixel. */
  function ByteAt(s: seq<byte>, k: int): byte
  {
    if 0 <= k < |s| then s[k] else 0
  }

  /** `read`: three bytes, blue first, from stream position `pos`. */
  function ReadPixel(s: seq<byte>, pos: int): Pixel
  {
    Pixel(ByteAt(s, pos), ByteAt(s, pos + 1), ByteAt(s, pos + 2))
  }

  /** Where the stream holds three bytes at `pos`, the pixel read there is
      exactly those bytes. */
  lemma ReadPixelBytes(s: seq<byte>, pos: int)
    requires 0 <= pos && pos + NumChannels <= |s|
    ensures ReadPixel(s, pos).Bytes() == s[pos..pos + NumChannels]
  {
    var q := s[pos..pos + NumChannels];
    assert q == [q[0], q[1], q[2]];
  }

  /** Reading back what `write` emitted gives the same pixel, wherever in the
      stream it stands. */
  lemma ReadWritePixel(p: Pixel, before: seq<byte>, after: seq<byte>)
    ensures ReadPixel(before + p.Bytes() + after, |before|) == p
  {
    var s := before + p.Bytes() + after;
    assert s[|before|] == p.blue && s[|before| + 1] == p.green && s[|before| + 2] == p.red;
  }

  /** The per-channel wide sum (`long` in the source). */
  datatype ColorAccumulator = ColorAccumulator(blue: int, green: int, red: int) {

    function Channel(ch: int): int
      requires 0 <= ch < NumChannels
    {
      if ch == BlueChannel then blue else if ch == GreenChannel then green else red
    }

    function WithChannel(ch: int, v: int): (a: ColorAccumulator)
      requires 0 <= ch < NumChannels
      ensures a.Channel(ch) == v
      ensures forall k :: 0 <= k < NumChannels && k != ch ==> a.Channel(k) == Channel(k)
    {
      if ch == BlueChannel then this.(blue := v)
      else if ch == GreenChannel then this.(green := v)
      else this.(red := v)
    }

    /** `operator+=`, channel by channel. */
    function Plus(c: ColorAccumulator): (a: ColorAccumulator)
      ensures forall ch :: 0 <= ch < NumChannels ==> a.Channel(ch) == Channel(ch) + c.Channel(ch)
    {
      ColorAccumulator(blue + c.blue, green + c.green, red + c.red)
    }
  }

  /** A default-constructed accumulator. */
  const Zero := ColorAccumulator(0, 0, 0)

  /** What `operator/` computes: every channel divided with C++'s truncating
      division. */
  function Quotient(a: ColorAccumulator, factor: int): (q: ColorAccumulator)
    requires factor != 0
    ensures forall ch :: 0 <= ch < NumChannels ==> q.Channel(ch) == TruncDiv(a.Channel(ch), factor)
  {
    ColorAccumulator(TruncDiv(a.blue, factor), TruncDiv(a.green, factor), TruncDiv(a.red, factor))
  }

  /** `operator/`: copies the accumulator and divides each channel of the copy
      in a loop; the receiver is a value and is left as it was. */
  method Divide(a: ColorAccumulator, factor: int) returns (result: ColorAccumulator)
    requires factor != 0
    ensures forall ch :: 0 <= ch < NumChannels ==> result.Channel(ch) == TruncDiv(a.Channel(ch), factor)
    ensures result == Quotient(a, factor)
  {
    result := a;
    for ch := 0 to NumChannels
      invariant forall k :: 0 <= k < ch ==> result.Channel(k) == TruncDiv(a.Channel(k), factor)
      invariant forall k :: ch <= k < NumChannels ==> result.Channel(k) == a.Channel(k)
    {
      result := result.WithChannel(ch, TruncDiv(result.Channel(ch), factor));
    }
    assert result.blue == result.Channel(BlueChannel) && result.green == result.Channel(GreenChannel);
    assert result.red == result.Channel(RedChannel);
  }

  /** The conversion from an accumulator, by the constructor
      `pixel(const color_accumulator &)` or by `operator=`: each channel keeps
      its low 8 bits. */
  function FromAccumulator(c: ColorAccumulator): (p: Pixel)
    ensures p.red == Low8(c.red) && p.green == Low8(c.green) && p.blue == Low8(c.blue)
    ensures forall ch :: 0 <= ch < NumChannels && 0 <= c.Channel(ch) < 0x100 ==> p.Channel(ch) == c.Channel(ch)
  {
    Pixel(Low8(c.blue), Low8(c.green), Low8(c.red))
  }
}
