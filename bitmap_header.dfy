/** The 54-byte bitmap header (the 14-byte file header followed by the
    40-byte info header): its fields, validation order, and verbatim
    round trip of the raw block and of the extra bytes up to the pixel data. */
module BitmapHeaders {
  import opened Machine
  import opened LittleEndian
  import opened Results
  import opened FileErrors
  import opened Decimal

  const HeaderSize := 54
  const DefaultBitCount := 24
  const ExpectedBitCount := 24

  /** Byte offsets of the fields inside the raw block. */
  const PixelStartOffset := 10
  const WidthOffset := 18
  const HeightOffset := 22
  const PlanesOffset := 26
  const BitCountOffset := 28
  const CompressionOffset := 30

  /** `header_info`: the raw block exactly as it was read. */
  type HeaderBlock = s: seq<byte> | |s| == HeaderSize witness seq(HeaderSize, _ => 0)

  /** Every member of `bitmap_header`. `extraSize` is `int` arithmetic on the
      signed reading of the pixel start; see `ExtraSize`. */
  datatype Header = Header(
    info: HeaderBlock,
    extraBuffer: seq<byte>,
    pixelStart: uint32,
    width: int32,
    height: int32,
    planes: int16,
    bitCount: uint16,
    compression: int32,
    extraSize: int)

  /** A default-constructed header: an all-zero block, no extra bytes, 0 for
      pixel start, width, height, compression and extra size, one plane and
      24 bits per pixel. */
  const DefaultHeader := Header(seq(HeaderSize, _ => 0), [], 0, 0, 0, 1, DefaultBitCount, 0, 0)

  /** `image_size()`, computed in `long`: the product of the two 32-bit
      dimensions always fits. */
  function ImageSize(h: Header): (r: int)
    ensures r == h.width * h.height
    ensures -0x4000_0000_0000_0000 <= r <= 0x4000_0000_0000_0000
  {
    ProductBound(h.width, h.height);
    h.width * h.height
  }

  lemma ProductBound(a: int32, b: int32)
    ensures -0x4000_0000_0000_0000 <= a * b <= 0x4000_0000_0000_0000
  {
    var x: int, y: int := Abs(a), Abs(b);
    MulMonotone(x, y, 0x8000_0000, 0x8000_0000);
    assert a * b == x * y || a * b == -(x * y);
  }

  lemma MulMonotone(x: nat, y: nat, boundX: nat, boundY: nat)
    requires x <= boundX && y <= boundY
    ensures x * y <= boundX * boundY
  {
    assert x * y <= boundX * y;
    assert boundX * y <= boundX * boundY;
  }

  // ---- little-endian field access (`get_value` / `set_value`) ----

  function GetUint32(s: seq<byte>, offset: nat): (v: uint32)
    requires offset + 4 <= |s|
  {
    PowFour();
    Decode(s[offset..offset + 4])
  }

  function GetInt32(s: seq<byte>, offset: nat): (v: int32)
    requires offset + 4 <= |s|
  {
    PowFour();
    ToSigned(Decode(s[offset..offset + 4]), 4)
  }

  function GetInt16(s: seq<byte>, offset: nat): (v: int16)
    requires offset + 2 <= |s|
  {
    PowFour();
    ToSigned(Decode(s[offset..offset + 2]), 2)
  }

  function GetUint16(s: seq<byte>, offset: nat): (v: uint16)
    requires offset + 2 <= |s|
  {
    PowFour();
    Decode(s[offset..offset + 2])
  }

  /** `get_value` reads back what `set_value` stores: the value of a 4-byte
      field, stored again as its little-endian bits, is the field's bytes. */
  lemma FieldBytes32(s: seq<byte>, offset: nat)
    requires offset + 4 <= |s|
    ensures Encode(GetUint32(s, offset), 4) == s[offset..offset + 4]
    ensures Encode(Bits32(GetInt32(s, offset)), 4) == s[offset..offset + 4]
  {
    PowFour();
    var field := s[offset..offset + 4];
    EncodeDecode(field);
    assert ToSigned(Bits32(GetInt32(s, offset)), 4) == ToSigned(Decode(field), 4);
  }

  /** The same for the 2-byte fields. */
  lemma FieldBytes16(s: seq<byte>, offset: nat)
    requires offset + 2 <= |s|
    ensures Encode(GetUint16(s, offset), 2) == s[offset..offset + 2]
    ensures Encode(Bits16(GetInt16(s, offset)), 2) == s[offset..offset + 2]
  {
    PowFour();
    var field := s[offset..offset + 2];
    EncodeDecode(field);
    assert ToSigned(Bits16(GetInt16(s, offset)), 2) == ToSigned(Decode(field), 2);
  }

  /** The two's-complement bits of a C++ `int`. */
  function Bits32(x: int32): (u: uint32)
    ensures ToSigned(u, 4) == x
  {
    PowFour();
    FromSigned(x, 4)
  }

  /** The two's-complement bits of an `int16_t`. */
  function Bits16(x: int16): (u: uint16)
    ensures ToSigned(u, 2) == x
  {
    PowFour();
    FromSigned(x, 2)
  }

  /** The raw block holding the given magic bytes and field values at their
      offsets, every other byte zero. */
  function Block(magic: seq<byte>, pixelStart: uint32, width: int32, height: int32,
                 planes: int16, bitCount: uint16, compression: int32): (s: HeaderBlock)
    requires |magic| == 2
  {
    PowFour();
    var ps, w, h := Encode(pixelStart, 4), Encode(Bits32(width), 4), Encode(Bits32(height), 4);
    var pl, bc, co := Encode(Bits16(planes), 2), Encode(bitCount, 2), Encode(Bits32(compression), 4);
    seq(HeaderSize, k requires 0 <= k < HeaderSize =>
      if k < 2 then magic[k]
      else if PixelStartOffset <= k < PixelStartOffset + 4 then ps[k - PixelStartOffset]
      else if WidthOffset <= k < WidthOffset + 4 then w[k - WidthOffset]
      else if HeightOffset <= k < HeightOffset + 4 then h[k - HeightOffset]
      else if PlanesOffset <= k < PlanesOffset + 2 then pl[k - PlanesOffset]
      else if BitCountOffset <= k < BitCountOffset + 2 then bc[k - BitCountOffset]
      else if CompressionOffset <= k < CompressionOffset + 4 then co[k - CompressionOffset]
      else 0)
  }

  /** Decoding the fields of a `Block` gives back the values it was built from. */
  lemma BlockFields(magic: seq<byte>, pixelStart: uint32, width: int32, height: int32,
                    planes: int16, bitCount: uint16, compression: int32)
    requires |magic| == 2
    ensures var s := Block(magic, pixelStart, width, height, planes, bitCount, compression);
            && s[..2] == magic
            && GetUint32(s, PixelStartOffset) == pixelStart
            && GetInt32(s, WidthOffset) == width && GetInt32(s, HeightOffset) == height
            && GetInt16(s, PlanesOffset) == planes && GetUint16(s, BitCountOffset) == bitCount
            && GetInt32(s, CompressionOffset) == compression
  {
    var s := Block(magic, pixelStart, width, height, planes, bitCount, compression);
    assert s[..2] == magic;
    BlockPlacement(magic, pixelStart, width, height, planes, bitCount, compression);
    BlockDimensions(magic, pixelStart, width, height, planes, bitCount, compression);
    BlockFormat(magic, pixelStart, width, height, planes, bitCount, compression);
    BlockCompression(magic, pixelStart, width, height, planes, bitCount, compression);
  }

  lemma BlockPlacement(magic: seq<byte>, pixelStart: uint32, width: int32, height: int32,
                       planes: int16, bitCount: uint16, compression: int32)
    requires |magic| == 2
    ensures var s := Block(magic, pixelStart, width, height, planes, bitCount, compression);
            GetUint32(s, PixelStartOffset) == pixelStart
  {
    PowFour();
    var s := Block(magic, pixelStart, width, height, planes, bitCount, compression);
    SliceOfBlock(s, PixelStartOffset, Encode(pixelStart, 4));
  }

  lemma BlockDimensions(magic: seq<byte>, pixelStart: uint32, width: int32, height: int32,
                        planes: int16, bitCount: uint16, compression: int32)
    requires |magic| == 2
    ensures var s := Block(magic, pixelStart, width, height, planes, bitCount, compression);
            GetInt32(s, WidthOffset) == width && GetInt32(s, HeightOffset) == height
  {
    PowFour();
    var s := Block(magic, pixelStart, width, height, planes, bitCount, compression);
    SliceOfBlock(s, WidthOffset, Encode(Bits32(width), 4));
    SliceOfBlock(s, HeightOffset, Encode(Bits32(height), 4));
  }

  lemma BlockFormat(magic: seq<byte>, pixelStart: uint32, width: int32, height: int32,
                    planes: int16, bitCount: uint16, compression: int32)
    requires |magic| == 2
    ensures var s := Block(magic, pixelStart, width, height, planes, bitCount, compression);
            GetInt16(s, PlanesOffset) == planes && GetUint16(s, BitCountOffset) == bitCount
  {
    PowFour();
    var s := Block(magic, pixelStart, width, height, planes, bitCount, compression);
    SliceOfBlock(s, PlanesOffset, Encode(Bits16(planes), 2));
    SliceOfBlock(s, BitCountOffset, Encode(bitCount, 2));
  }

  lemma BlockCompression(magic: seq<byte>, pixelStart: uint32, width: int32, height: int32,
                         planes: int16, bitCount: uint16, compression: int32)
    requires |magic| == 2
    ensures var s := Block(magic, pixelStart, width, height, planes, bitCount, compression);
            GetInt32(s, CompressionOffset) == compression
  {
    PowFour();
    var s := Block(magic, pixelStart, width, height, planes, bitCount, compression);
    SliceOfBlock(s, CompressionOffset, Encode(Bits32(compression), 4));
  }

  lemma SliceOfBlock(s: seq<byte>, offset: nat, bytes: seq<byte>)
    requires offset + |bytes| <= |s|
    requires forall k :: offset <= k < offset + |bytes| ==> s[k] == bytes[k - offset]
    ensures s[offset..offset + |bytes|] == bytes
  {
  }

  /** The raw block after a 4-byte value is copied to `offset`. */
  function Store(s: seq<byte>, value: uint32, offset: nat): (t: seq<byte>)
    requires offset + 4 <= |s|
    ensures |t| == |s|
    ensures t[offset..offset + 4] == Encode(value, 4)
    ensures forall k :: 0 <= k < |s| && !(offset <= k < offset + 4) ==> t[k] == s[k]
  {
    PowFour();
    var t := s[..offset] + Encode(value, 4) + s[offset + 4..];
    assert t[offset..offset + 4] == Encode(value, 4);
    t
  }

  /** `set_value` of a 4-byte value: stores its little-endian bytes at
      `offset` and leaves every other byte of the buffer alone. */
  method SetValue(buffer: array<byte>, value: uint32, offset: nat)
    requires offset + 4 <= buffer.Length
    modifies buffer
    ensures buffer[..] == Store(old(buffer[..]), value, offset)
  {
    PowFour();
    ghost var before := buffer[..];
    var bytes := Encode(value, 4);
    forall k | 0 <= k < 4 {
      buffer[offset + k] := bytes[k];
    }
    ghost var expected := Store(before, value, offset);
    forall k | 0 <= k < buffer.Length
      ensures buffer[k] == expected[k]
    {
      if offset <= k < offset + 4 {
        assert expected[k] == expected[offset..offset + 4][k - offset];
      }
    }
  }

  /** The constructor `bitmap_header(w, h)`: pixel start 54, the given
      dimensions, and the defaults for the other fields. Each field (all of
      them `int`s) goes into the zeroed raw block by a 4-byte store in place,
      so the stores of planes and bit count are partly overwritten by the
      store that follows them; the result is the block with those values at
      their offsets and a zero magic number. */
  method NewHeader(w: int32, h: int32) returns (hd: Header)
    ensures hd.info == Block([0, 0], HeaderSize, w, h, 1, DefaultBitCount, 0)
    ensures hd.pixelStart == HeaderSize && hd.width == w && hd.height == h
    ensures hd.planes == 1 && hd.bitCount == DefaultBitCount && hd.compression == 0
    ensures hd.extraSize == 0 && hd.extraBuffer == []
    ensures GetUint32(hd.info, PixelStartOffset) == HeaderSize
    ensures GetInt32(hd.info, WidthOffset) == w && GetInt32(hd.info, HeightOffset) == h
    ensures GetInt16(hd.info, PlanesOffset) == 1 && GetUint16(hd.info, BitCountOffset) == DefaultBitCount
    ensures GetInt32(hd.info, CompressionOffset) == 0
    ensures !MagicOk(hd.info)
  {
    var buffer := new byte[HeaderSize](_ => 0);
    assert buffer[..] == seq(HeaderSize, _ => 0);
    SetValue(buffer, HeaderSize, PixelStartOffset);
    SetValue(buffer, Bits32(w), WidthOffset);
    SetValue(buffer, Bits32(h), HeightOffset);
    SetValue(buffer, Bits32(1), PlanesOffset);
    SetValue(buffer, Bits32(DefaultBitCount), BitCountOffset);
    SetValue(buffer, Bits32(0), CompressionOffset);
    ConstructedBlock(w, h);
    hd := Header(buffer[..], [], HeaderSize, w, h, 1, DefaultBitCount, 0, 0);
    BlockFields([0, 0], HeaderSize, w, h, 1, DefaultBitCount, 0);
  }

  /** The six stores of the constructor, in order. */
  function Constructed(w: int32, h: int32): (s: seq<byte>)
    ensures |s| == HeaderSize
  {
    var zero := seq(HeaderSize, _ => 0);
    Store(Store(Store(Store(Store(Store(zero, HeaderSize, PixelStartOffset), Bits32(w), WidthOffset),
      Bits32(h), HeightOffset), Bits32(1), PlanesOffset), Bits32(DefaultBitCount), BitCountOffset),
      Bits32(0), CompressionOffset)
  }

  /** The six stores of the constructor give the block with the
      constructor's field values and a zero magic number. */
  lemma ConstructedBlock(w: int32, h: int32)
    ensures Constructed(w, h) == Block([0, 0], HeaderSize, w, h, 1, DefaultBitCount, 0)
  {
    var expected := Block([0, 0], HeaderSize, w, h, 1, DefaultBitCount, 0);
    forall k | 0 <= k < HeaderSize
      ensures Constructed(w, h)[k] == expected[k]
    {
      if k < HeightOffset {
        ConstructedLow(w, h, k);
      } else if k < PlanesOffset {
        ConstructedHeight(w, h, k);
      } else {
        ConstructedFormat(w, h, k);
      }
    }
  }

  /** The bytes below the height field. */
  lemma ConstructedLow(w: int32, h: int32, k: nat)
    requires k < HeightOffset
    ensures Constructed(w, h)[k] == Block([0, 0], HeaderSize, w, h, 1, DefaultBitCount, 0)[k]
  {
    PowFour();
    var s1 := Store(seq(HeaderSize, _ => 0), HeaderSize, PixelStartOffset);
    var s2 := Store(s1, Bits32(w), WidthOffset);
    var s3 := Store(s2, Bits32(h), HeightOffset);
    var s4 := Store(s3, Bits32(1), PlanesOffset);
    var s5 := Store(s4, Bits32(DefaultBitCount), BitCountOffset);
    StoreAt(s5, Bits32(0), CompressionOffset, k);
    StoreAt(s4, Bits32(DefaultBitCount), BitCountOffset, k);
    StoreAt(s3, Bits32(1), PlanesOffset, k);
    StoreAt(s2, Bits32(h), HeightOffset, k);
    StoreAt(s1, Bits32(w), WidthOffset, k);
    StoreAt(seq(HeaderSize, _ => 0), HeaderSize, PixelStartOffset, k);
    var expected := Block([0, 0], HeaderSize, w, h, 1, DefaultBitCount, 0);
    if k < PixelStartOffset {
      assert s5[k] == 0 == expected[k];
    } else if k < PixelStartOffset + 4 {
      assert s5[k] == Encode(HeaderSize, 4)[k - PixelStartOffset] == expected[k];
    } else if k < WidthOffset {
      assert s5[k] == 0 == expected[k];
    } else {
      assert s5[k] == Encode(Bits32(w), 4)[k - WidthOffset] == expected[k];
    }
  }

  /** The bytes of the height field. */
  lemma ConstructedHeight(w: int32, h: int32, k: nat)
    requires HeightOffset <= k < PlanesOffset
    ensures Constructed(w, h)[k] == Block([0, 0], HeaderSize, w, h, 1, DefaultBitCount, 0)[k]
  {
    PowFour();
    var s2 := Store(Store(seq(HeaderSize, _ => 0), HeaderSize, PixelStartOffset), Bits32(w), WidthOffset);
    var s3 := Store(s2, Bits32(h), HeightOffset);
    var s4 := Store(s3, Bits32(1), PlanesOffset);
    var s5 := Store(s4, Bits32(DefaultBitCount), BitCountOffset);
    StoreAt(s5, Bits32(0), CompressionOffset, k);
    StoreAt(s4, Bits32(DefaultBitCount), BitCountOffset, k);
    StoreAt(s3, Bits32(1), PlanesOffset, k);
    StoreAt(s2, Bits32(h), HeightOffset, k);
  }

  /** The bytes of the planes, bit count and compression fields and the
      zeros after them. */
  lemma ConstructedFormat(w: int32, h: int32, k: nat)
    requires PlanesOffset <= k < HeaderSize
    ensures Constructed(w, h)[k] == Block([0, 0], HeaderSize, w, h, 1, DefaultBitCount, 0)[k]
  {
    PowFour();
    var s3 := Store(Store(Store(seq(HeaderSize, _ => 0), HeaderSize, PixelStartOffset), Bits32(w), WidthOffset),
                    Bits32(h), HeightOffset);
    var s4 := Store(s3, Bits32(1), PlanesOffset);
    var s5 := Store(s4, Bits32(DefaultBitCount), BitCountOffset);
    StoreAt(s5, Bits32(0), CompressionOffset, k);
    StoreAt(s4, Bits32(DefaultBitCount), BitCountOffset, k);
    StoreAt(s3, Bits32(1), PlanesOffset, k);
    ConstantEncodings();
    if k >= CompressionOffset + 4 {
      StoreAt(Store(Store(seq(HeaderSize, _ => 0), HeaderSize, PixelStartOffset), Bits32(w), WidthOffset),
              Bits32(h), HeightOffset, k);
      StoreAt(Store(seq(HeaderSize, _ => 0), HeaderSize, PixelStartOffset), Bits32(w), WidthOffset, k);
      StoreAt(seq(HeaderSize, _ => 0), HeaderSize, PixelStartOffset, k);
    }
  }

  /** The bytes of the constant field values the constructor stores. */
  lemma ConstantEncodings()
    ensures Encode(Bits32(1), 4) == [1, 0, 0, 0]
    ensures Encode(Bits32(DefaultBitCount), 4) == [24, 0, 0, 0]
    ensures Encode(Bits32(0), 4) == [0, 0, 0, 0]
    ensures Encode(Bits16(1), 2) == [1, 0]
    ensures Encode(DefaultBitCount, 2) == [24, 0]
  {
    PowFour();
  }

  lemma StoreAt(s: seq<byte>, value: uint32, offset: nat, k: nat)
    requires offset + 4 <= |s| && k < |s|
    ensures Store(s, value, offset)[k] == if offset <= k < offset + 4 then Encode(value, 4)[k - offset] else s[k]
  {
    PowFour();
    if offset <= k < offset + 4 {
      assert Store(s, value, offset)[k] == Store(s, value, offset)[offset..offset + 4][k - offset];
    }
  }

  // ---- validation (`read`) ----

  predicate MagicOk(s: seq<byte>)
    requires |s| >= HeaderSize
  {
    s[0] == 'B' as int && s[1] == 'M' as int
  }

  predicate PlanesOk(s: seq<byte>)
    requires |s| >= HeaderSize
  {
    GetInt16(s, PlanesOffset) == 1
  }

  predicate BitCountOk(s: seq<byte>)
    requires |s| >= HeaderSize
  {
    GetUint16(s, BitCountOffset) == ExpectedBitCount
  }

  predicate CompressionOk(s: seq<byte>)
    requires |s| >= HeaderSize
  {
    GetInt32(s, CompressionOffset) == 0
  }

  /** The four checks of `read` in terms of the bytes of the block: "BM",
      then planes 1, 24 bits per pixel and compression 0, little-endian. */
  lemma ChecksAsBytes(s: seq<byte>)
    requires |s| >= HeaderSize
    ensures MagicOk(s) <==> s[..2] == Magic
    ensures PlanesOk(s) <==> s[PlanesOffset..PlanesOffset + 2] == [1, 0]
    ensures BitCountOk(s) <==> s[BitCountOffset..BitCountOffset + 2] == [24, 0]
    ensures CompressionOk(s) <==> s[CompressionOffset..CompressionOffset + 4] == [0, 0, 0, 0]
  {
    PowFour();
    assert s[..2] == [s[0], s[1]];
    FieldBytes16(s, PlanesOffset);
    FieldBytes16(s, BitCountOffset);
    FieldBytes32(s, CompressionOffset);
    ConstantEncodings();
    assert Decode([1, 0]) == 1 && Decode([24, 0]) == 24 && Decode([0, 0, 0, 0]) == 0;
  }

  /** `static_cast<int>(pixel_start_) - header_size`, in exact arithmetic:
      negative exactly when the signed pixel start is before the end of the
      fixed header. */
  function ExtraSize(pixelStart: uint32): (e: int)
    ensures e >= 0 <==> ToSigned(pixelStart, 4) >= HeaderSize
    ensures e < 0x8000_0000
  {
    PowFour();
    ToSigned(pixelStart, 4) - HeaderSize
  }

  /** The same subtraction as the C++ `int` arithmetic performs it on a
      two's-complement machine: it wraps for pixel starts within 54 of -2^31. */
  function ExtraSizeAsWritten(pixelStart: uint32): (e: int32)
    ensures ToSigned(pixelStart, 4) >= -0x8000_0000 + HeaderSize ==> e == ExtraSize(pixelStart)
  {
    PowFour();
    var x := ToSigned(pixelStart, 4) - HeaderSize;
    if x < -0x8000_0000 then x + 0x1_0000_0000 else x
  }

  /** With the wrapped subtraction a pixel start of 0x8000_0000 (that is,
      -2^31) passes the non-negativity check meant to reject it. */
  lemma ExtraSizeOverflow()
    ensures ExtraSizeAsWritten(0x8000_0000) == 0x8000_0000 - HeaderSize
    ensures ExtraSize(0x8000_0000) < 0
  {
    PowFour();
  }

  /** `read`: the raw block is taken from the front of the stream, then the
      checks run in this order and the first that fails decides the error:
      short stream, magic number, planes, bit count, compression, pixel start,
      short extra bytes. On success the fields are the little-endian values at
      their offsets and exactly `pixel_start - 54` further bytes are kept
      verbatim. */
  function Read(input: seq<byte>): (r: Result<Header, FileErrorKind>)
    ensures r == Failure(CannotRead) <==> |input| < HeaderSize
    ensures r == Failure(InvalidMagicNumber) <==> |input| >= HeaderSize && !MagicOk(input)
    ensures r == Failure(InvalidPlanes) <==>
              |input| >= HeaderSize && MagicOk(input) && !PlanesOk(input)
    ensures r == Failure(InvalidBitCount) <==>
              |input| >= HeaderSize && MagicOk(input) && PlanesOk(input) && !BitCountOk(input)
    ensures r == Failure(InvalidCompression) <==>
              |input| >= HeaderSize && MagicOk(input) && PlanesOk(input) && BitCountOk(input)
              && !CompressionOk(input)
    ensures r == Failure(InvalidPixelStart) <==>
              |input| >= HeaderSize && MagicOk(input) && PlanesOk(input) && BitCountOk(input)
              && CompressionOk(input) && ExtraSize(GetUint32(input, PixelStartOffset)) < 0
    ensures r == Failure(CannotReadExtra) <==>
              |input| >= HeaderSize && MagicOk(input) && PlanesOk(input) && BitCountOk(input)
              && CompressionOk(input) && ExtraSize(GetUint32(input, PixelStartOffset)) >= 0
              && |input| < HeaderSize + ExtraSize(GetUint32(input, PixelStartOffset))
    ensures r.Success? ==>
              var h := r.value;
              && h.info == input[..HeaderSize]
              && h.pixelStart == GetUint32(input, PixelStartOffset)
              && h.width == GetInt32(input, WidthOffset) && h.height == GetInt32(input, HeightOffset)
              && h.planes == 1 && h.bitCount == ExpectedBitCount && h.compression == 0
              && h.extraSize == |h.extraBuffer| == ExtraSize(h.pixelStart)
              && h.extraBuffer == input[HeaderSize..HeaderSize + h.extraSize]
  {
    if |input| < HeaderSize then Failure(CannotRead)
    else
      var info: HeaderBlock := input[..HeaderSize];
      if !MagicOk(info) then Failure(InvalidMagicNumber)
      else
        var pixelStart := GetUint32(info, PixelStartOffset);
        var width := GetInt32(info, WidthOffset);
        var height := GetInt32(info, HeightOffset);
        var planes := GetInt16(info, PlanesOffset);
        var bitCount := GetUint16(info, BitCountOffset);
        var compression := GetInt32(info, CompressionOffset);
        FieldsOfPrefix(input, info);
        if planes != 1 then Failure(InvalidPlanes)
        else if bitCount != ExpectedBitCount then Failure(InvalidBitCount)
        else if compression != 0 then Failure(InvalidCompression)
        else
          var extraSize := ExtraSize(pixelStart);
          if extraSize < 0 then Failure(InvalidPixelStart)
          else if |input| < HeaderSize + extraSize then Failure(CannotReadExtra)
          else
            var extra := input[HeaderSize..HeaderSize + extraSize];
            Success(Header(info, extra, pixelStart, width, height, planes, bitCount, compression, extraSize))
  }

  /** The header object after `read`, whichever check fails: every field
      keeps its old value until the statement that stores it runs. A short
      stream stores what it holds: the first bytes of the raw block, or the
      first bytes of the extra buffer after that buffer was resized. */
  function ReadInto(prior: Header, input: seq<byte>): (h: Header)
    ensures |input| < HeaderSize ==>
              h.info[..|input|] == input && h.info[|input|..] == prior.info[|input|..]
              && h == prior.(info := h.info)
    ensures |input| >= HeaderSize ==> h.info == input[..HeaderSize]
    ensures |input| >= HeaderSize && !MagicOk(input) ==> h == prior.(info := h.info)
    ensures |input| >= HeaderSize && MagicOk(input) ==>
              && h.pixelStart == GetUint32(input, PixelStartOffset)
              && h.width == GetInt32(input, WidthOffset) && h.height == GetInt32(input, HeightOffset)
              && h.planes == GetInt16(input, PlanesOffset) && h.bitCount == GetUint16(input, BitCountOffset)
              && h.compression == GetInt32(input, CompressionOffset)
    ensures |input| >= HeaderSize && MagicOk(input) && !(PlanesOk(input) && BitCountOk(input) && CompressionOk(input)) ==>
              h.extraSize == prior.extraSize && h.extraBuffer == prior.extraBuffer
    ensures |input| >= HeaderSize && MagicOk(input) && PlanesOk(input) && BitCountOk(input) && CompressionOk(input) ==>
              h.extraSize == ExtraSize(h.pixelStart)
    ensures |input| >= HeaderSize && MagicOk(input) && PlanesOk(input) && BitCountOk(input) && CompressionOk(input)
              && h.extraSize < 0
            ==> h.extraBuffer == prior.extraBuffer
  {
    if |input| < HeaderSize then
      prior.(info := input + prior.info[|input|..])
    else
      var info: HeaderBlock := input[..HeaderSize];
      if !MagicOk(info) then prior.(info := info)
      else
        FieldsOfPrefix(input, info);
        var fields := prior.(info := info, pixelStart := GetUint32(info, PixelStartOffset),
                             width := GetInt32(info, WidthOffset), height := GetInt32(info, HeightOffset),
                             planes := GetInt16(info, PlanesOffset), bitCount := GetUint16(info, BitCountOffset),
                             compression := GetInt32(info, CompressionOffset));
        if fields.planes != 1 || fields.bitCount != ExpectedBitCount || fields.compression != 0 then fields
        else
          var extraSize := ExtraSize(fields.pixelStart);
          if extraSize < 0 then fields.(extraSize := extraSize)
          else
            var buffer := Resized(prior.extraBuffer, extraSize);
            var got := if |input| < HeaderSize + extraSize then |input| - HeaderSize else extraSize;
            fields.(extraSize := extraSize, extraBuffer := input[HeaderSize..HeaderSize + got] + buffer[got..])
  }

  /** Once every check passes, every field is stored: the header read does
      not depend on the old one. */
  lemma ReadIntoSucceeds(prior: Header, input: seq<byte>)
    requires Read(input).Success?
    ensures ReadInto(prior, input) == Read(input).value
  {
    var h, r := ReadInto(prior, input), Read(input).value;
    assert h.info == r.info && h.pixelStart == r.pixelStart && h.width == r.width && h.height == r.height;
    assert h.extraSize == r.extraSize;
    assert h.extraBuffer == r.extraBuffer;
  }

  /** A stream too short for the extra bytes leaves the resized buffer
      holding what the stream had, then its old contents or zeros. */
  lemma ReadIntoShortExtra(prior: Header, input: seq<byte>)
    requires Read(input) == Failure(CannotReadExtra)
    ensures var h := ReadInto(prior, input);
            && h.extraSize == |h.extraBuffer| == ExtraSize(h.pixelStart) > |input| - HeaderSize
            && h.extraBuffer[..|input| - HeaderSize] == input[HeaderSize..]
            && h.extraBuffer[|input| - HeaderSize..] == Resized(prior.extraBuffer, h.extraSize)[|input| - HeaderSize..]
  {
    var h := ReadInto(prior, input);
    var got := |input| - HeaderSize;
    assert h.extraSize == ExtraSize(GetUint32(input, PixelStartOffset));
    assert h.extraBuffer == input[HeaderSize..HeaderSize + got] + Resized(prior.extraBuffer, h.extraSize)[got..];
  }

  /** `vector::resize`: the first `n` elements kept, zeros appended. */
  function Resized(buffer: seq<byte>, n: nat): (r: seq<byte>)
    ensures |r| == n
    ensures forall i :: 0 <= i < n ==> r[i] == if i < |buffer| then buffer[i] else 0
  {
    if n <= |buffer| then buffer[..n] else buffer + seq(n - |buffer|, _ => 0)
  }

  /** The fields only depend on the raw block. */
  lemma FieldsOfPrefix(input: seq<byte>, info: seq<byte>)
    requires |input| >= HeaderSize && info == input[..HeaderSize]
    ensures MagicOk(info) == MagicOk(input)
    ensures GetUint32(info, PixelStartOffset) == GetUint32(input, PixelStartOffset)
    ensures GetInt32(info, WidthOffset) == GetInt32(input, WidthOffset)
    ensures GetInt32(info, HeightOffset) == GetInt32(input, HeightOffset)
    ensures GetInt16(info, PlanesOffset) == GetInt16(input, PlanesOffset)
    ensures GetUint16(info, BitCountOffset) == GetUint16(input, BitCountOffset)
    ensures GetInt32(info, CompressionOffset) == GetInt32(input, CompressionOffset)
  {
    PrefixSlice(input, PixelStartOffset, 4);
    PrefixSlice(input, WidthOffset, 4);
    PrefixSlice(input, HeightOffset, 4);
    PrefixSlice(input, PlanesOffset, 2);
    PrefixSlice(input, BitCountOffset, 2);
    PrefixSlice(input, CompressionOffset, 4);
  }

  lemma PrefixSlice(input: seq<byte>, offset: nat, n: nat)
    requires offset + n <= HeaderSize <= |input|
    ensures input[..HeaderSize][offset..offset + n] == input[offset..offset + n]
  {
  }

  // ---- serialisation (`write`) ----

  /** What `write` emits: the stored raw block, then the extra bytes. */
  function Bytes(h: Header): (s: seq<byte>)
    ensures |s| == HeaderSize + |h.extraBuffer|
  {
    h.info + h.extraBuffer
  }

  /** `write` on a stream that is good or bad on entry. Only the write of the
      raw block is checked; nothing reaches a bad stream. */
  function Write(h: Header, streamGood: bool): (r: Result<seq<byte>, FileErrorKind>)
    ensures !streamGood <==> r == Failure(CannotWrite)
    ensures r.Success? ==> |r.value| == HeaderSize + |h.extraBuffer|
                           && r.value[..HeaderSize] == h.info && r.value[HeaderSize..] == h.extraBuffer
  {
    if streamGood then Success(Bytes(h)) else Failure(CannotWrite)
  }

  /** A header that `Read` produced is written back as exactly the bytes
      `Read` consumed. */
  lemma {:induction false} ReadThenWrite(input: seq<byte>)
    requires Read(input).Success?
    ensures Write(Read(input).value, true) == Success(input[..|Bytes(Read(input).value)|])
  {
    var h := Read(input).value;
    assert input[..HeaderSize + h.extraSize] == input[..HeaderSize] + input[HeaderSize..HeaderSize + h.extraSize];
  }

  /** A header that `Read` produced is read back unchanged from what `Write`
      emits, whatever follows it in the stream. */
  lemma {:induction false} WriteThenRead(input: seq<byte>, rest: seq<byte>)
    requires Read(input).Success?
    ensures Read(Bytes(Read(input).value) + rest) == Read(input)
  {
    var h := Read(input).value;
    var s := Bytes(h) + rest;
    assert s[..HeaderSize] == h.info == input[..HeaderSize];
    FieldsOfPrefix(s, h.info);
    FieldsOfPrefix(input, h.info);
    assert s[HeaderSize..HeaderSize + h.extraSize] == h.extraBuffer;
  }

  /** A header is readable when reading its own bytes gives it back; by
      `WriteThenRead` every header `Read` produced is readable. */
  ghost predicate Readable(h: Header)
  {
    Read(Bytes(h)) == Success(h)
  }

  lemma {:induction false} ReadableAnyRest(h: Header, rest: seq<byte>)
    requires Readable(h)
    ensures Read(Bytes(h) + rest) == Success(h)
  {
    WriteThenRead(Bytes(h), rest);
  }

  /** The magic number "BM". */
  const Magic: seq<byte> := ['B' as int, 'M' as int]

  /** The streams of the header unit tests: a `Block` followed by zeros. */
  function TestStream(length: nat, magic: seq<byte>, pixelStart: uint32, planes: int16,
                      bitCount: uint16, compression: int32): (s: seq<byte>)
    requires |magic| == 2 && length >= HeaderSize
    ensures |s| == length
  {
    Block(magic, pixelStart, 0, 0, planes, bitCount, compression) + seq(length - HeaderSize, _ => 0)
  }

  lemma TestStreamFields(length: nat, magic: seq<byte>, pixelStart: uint32, planes: int16,
                         bitCount: uint16, compression: int32)
    requires |magic| == 2 && length >= HeaderSize
    ensures var s := TestStream(length, magic, pixelStart, planes, bitCount, compression);
            && MagicOk(s) == (magic == Magic)
            && GetUint32(s, PixelStartOffset) == pixelStart
            && PlanesOk(s) == (planes == 1) && BitCountOk(s) == (bitCount == ExpectedBitCount)
            && CompressionOk(s) == (compression == 0)
  {
    var b := Block(magic, pixelStart, 0, 0, planes, bitCount, compression);
    BlockFields(magic, pixelStart, 0, 0, planes, bitCount, compression);
    FieldsOfPrefix(TestStream(length, magic, pixelStart, planes, bitCount, compression), b);
    assert (magic == Magic) == (b[0] == 'B' as int && b[1] == 'M' as int) by {
      assert b[0] == magic[0] && b[1] == magic[1];
    }
  }

  /** The header unit tests that expect `read` to fail, each with the error
      its stream raises. The bit-count test's stream has pixel start 0, so it
      fails at the pixel-start check; the planes test fails at planes. */
  lemma ReadRejectExamples()
    ensures Read(seq(10, _ => 0)) == Failure(CannotRead)
    ensures Read(TestStream(54, [0, 0], 0, 0, 0, 0)) == Failure(InvalidMagicNumber)
    ensures Read(TestStream(54, Magic, 0, 2, 0, 0)) == Failure(InvalidPlanes)
    ensures Read(TestStream(54, Magic, 0, 1, 24, 1)) == Failure(InvalidCompression)
  {
    TestStreamFields(54, [0, 0], 0, 0, 0, 0);
    TestStreamFields(54, Magic, 0, 2, 0, 0);
    TestStreamFields(54, Magic, 0, 1, 24, 1);
  }

  lemma ReadPixelStartExamples()
    ensures Read(TestStream(54, Magic, 0, 1, 24, 0)) == Failure(InvalidPixelStart)
    ensures Read(TestStream(54, Magic, 50, 1, 24, 0)) == Failure(InvalidPixelStart)
  {
    assert ExtraSize(0) < 0 && ExtraSize(50) < 0;
    TestStreamFields(54, Magic, 0, 1, 24, 0);
    TestStreamFields(54, Magic, 50, 1, 24, 0);
  }

  /** The unit tests that expect `read` to succeed: pixel start 54 gives no
      extra bytes, pixel start 100 keeps 46. */
  lemma ReadAcceptExamples()
    ensures Read(TestStream(54, Magic, 54, 1, 24, 0)).Success?
    ensures Read(TestStream(54, Magic, 54, 1, 24, 0)).value.extraBuffer == []
    ensures Read(TestStream(130, Magic, 100, 1, 24, 0)).Success?
    ensures |Read(TestStream(130, Magic, 100, 1, 24, 0)).value.extraBuffer| == 46
  {
    assert ExtraSize(54) == 0 && ExtraSize(100) == 46;
    TestStreamFields(54, Magic, 54, 1, 24, 0);
    TestStreamFields(130, Magic, 100, 1, 24, 0);
  }

  /** `read` checks neither dimension: a block with the magic, one plane,
      24 bits per pixel, no compression and pixel start 54 reads with
      whatever width and height it holds, negative ones included. */
  lemma ReadAnyDimensions(width: int32, height: int32)
    ensures var r := Read(Block(Magic, HeaderSize, width, height, 1, ExpectedBitCount, 0));
            && r.Success? && r.value.width == width && r.value.height == height
            && r.value.extraBuffer == []
  {
    var s := Block(Magic, HeaderSize, width, height, 1, ExpectedBitCount, 0);
    BlockFields(Magic, HeaderSize, width, height, 1, ExpectedBitCount, 0);
    assert MagicOk(s) by {
      assert s[0] == s[..2][0] && s[1] == s[..2][1];
    }
    assert ExtraSize(HeaderSize) == 0;
  }

  /** The write tests: a 100-byte stream with pixel start 100 is written back
      unchanged, and a bad stream makes `write` fail. */
  lemma WriteExamples()
    ensures Read(TestStream(100, Magic, 100, 1, 24, 0)).Success?
    ensures Write(Read(TestStream(100, Magic, 100, 1, 24, 0)).value, true)
            == Success(TestStream(100, Magic, 100, 1, 24, 0))
    ensures Write(DefaultHeader, false) == Failure(CannotWrite)
  {
    assert ExtraSize(100) == 46;
    var input := TestStream(100, Magic, 100, 1, 24, 0);
    TestStreamFields(100, Magic, 100, 1, 24, 0);
    ReadThenWrite(input);
    assert |Bytes(Read(input).value)| == 100;
    assert input[..100] == input;
  }

  // ---- `print_info` ----

  function InfoLine(name: string, value: int): string
  {
    "    " + name + ": " + IntToString(value) + "\n"
  }

  /** The seven entries `print_info` reports, label and field, in the
      order of its lines. */
  function InfoEntries(h: Header): (es: seq<(string, int)>)
    ensures |es| == 7
  {
    [("Width", h.width), ("Height", h.height), ("Pixel start", h.pixelStart),
     ("Number of planes", h.planes), ("Bits per pixel", h.bitCount),
     ("Compression", h.compression), ("Extra header size", h.extraSize)]
  }

  /** Strings written one after the other. */
  function Join(ls: seq<string>): string
  {
    if ls == [] then "" else Join(ls[..|ls| - 1]) + ls[|ls| - 1]
  }

  /** The lines of a report with the given entries, in order. */
  function Report(es: seq<(string, int)>): string
  {
    Join(InfoLines(es))
  }

  /** The line of each entry, in order. */
  function InfoLines(es: seq<(string, int)>): (ls: seq<string>)
    ensures |ls| == |es|
  {
    if es == [] then [] else [InfoLine(es[0].0, es[0].1)] + InfoLines(es[1..])
  }

  /** `print_info`: seven labelled lines, written one after the other. */
  function PrintInfo(h: Header): string
  {
    InfoLine("Width", h.width)
    + InfoLine("Height", h.height)
    + InfoLine("Pixel start", h.pixelStart)
    + InfoLine("Number of planes", h.planes)
    + InfoLine("Bits per pixel", h.bitCount)
    + InfoLine("Compression", h.compression)
    + InfoLine("Extra header size", h.extraSize)
  }

  /** The number on each line of the report reads back as the field it
      reports. */
  lemma PrintInfoNumbersParse(h: Header)
    ensures ParseInt(IntToString(h.width)) == h.width && ParseInt(IntToString(h.height)) == h.height
    ensures ParseInt(IntToString(h.pixelStart)) == h.pixelStart
    ensures ParseInt(IntToString(h.planes)) == h.planes && ParseInt(IntToString(h.bitCount)) == h.bitCount
    ensures ParseInt(IntToString(h.compression)) == h.compression
    ensures ParseInt(IntToString(h.extraSize)) == h.extraSize
  {
    IntToStringParses(h.width);
    IntToStringParses(h.height);
    IntToStringParses(h.pixelStart);
    IntToStringParses(h.planes);
    IntToStringParses(h.bitCount);
    IntToStringParses(h.compression);
    IntToStringParses(h.extraSize);
  }

  // ---- reading the report back ----

  /** The position of the first `c` in `s`, or `|s|` when there is none. */
  function Find(s: string, c: char): (k: nat)
    ensures k <= |s| && (k < |s| ==> s[k] == c)
  {
    if s == [] || s[0] == c then 0 else 1 + Find(s[1..], c)
  }

  /** The text `operator<<` writes for an int: an optional '-' and at least
      one digit. */
  predicate IsIntText(t: string)
  {
    && |t| > (if |t| > 0 && t[0] == '-' then 1 else 0)
    && forall i :: (if t[0] == '-' then 1 else 0) <= i < |t| ==> IsDigit(t[i])
  }

  /** One report line without its '\n': four spaces, a label, ": " and an
      integer. The label is everything up to the first ':'. */
  function ParseInfoLine(line: string): Option<(string, int)>
  {
    if |line| < 4 || line[..4] != "    " then None
    else
      var body := line[4..];
      var k := Find(body, ':');
      if |body| < k + 2 || body[k + 1] != ' ' || !IsIntText(body[k + 2..]) then None
      else Some((body[..k], ParseInt(body[k + 2..])))
  }

  /** A report read back line by line into its (label, value) entries;
      `None` unless every line is well formed and ends in '\n'. */
  function ParseInfo(s: string): Option<seq<(string, int)>>
    decreases |s|
  {
    if s == [] then Some([])
    else
      var n := Find(s, '\n');
      if n == |s| then None
      else
        var line := ParseInfoLine(s[..n]);
        var rest := ParseInfo(s[n + 1..]);
        Combine(line, rest)
  }

  /** The entry of the first line before those of the rest, or `None` when
      either fails. */
  function Combine(line: Option<(string, int)>, rest: Option<seq<(string, int)>>): Option<seq<(string, int)>>
  {
    if line.None? || rest.None? then None else Some([line.value] + rest.value)
  }

  /** A label a report line can carry: no ':' and no line break. */
  predicate IsLabel(name: string)
  {
    forall i :: 0 <= i < |name| ==> name[i] != ':' && name[i] != '\n'
  }

  lemma {:induction false} FindAfter(a: string, b: string, c: char)
    requires forall i :: 0 <= i < |a| ==> a[i] != c
    ensures Find(a + b, c) == |a| + Find(b, c)
    decreases |a|
  {
    if a != [] {
      assert (a + b)[1..] == a[1..] + b;
      FindAfter(a[1..], b, c);
    } else {
      assert a + b == b;
    }
  }

  lemma IntTextNoBreak(v: int)
    ensures IsIntText(IntToString(v)) && NoBreak(IntToString(v))
  {
    IntToStringParses(v);
    var t := IntToString(v);
    if v < 0 {
      assert |NatToString(-v)| > 0;
    }
  }

  /** A line without a break, then '\n', then more lines: the line is
      read and the rest read on from after the break. */
  lemma ParseInfoSplit(line: string, rest: string)
    requires NoBreak(line)
    requires ParseInfoLine(line).Some? && ParseInfo(rest).Some?
    ensures ParseInfo(line + ("\n" + rest)) == Some([ParseInfoLine(line).value] + ParseInfo(rest).value)
  {
    var s := line + ("\n" + rest);
    FindAfter(line, "\n" + rest, '\n');
    ParseInfoAt(s, |line|, line, rest);
  }

  /** `parse_info` on a text whose first line break is at `n`. */
  lemma ParseInfoAt(s: string, n: nat, line: string, rest: string)
    requires n < |s| && Find(s, '\n') == n
    requires s[..n] == line && s[n + 1..] == rest
    ensures ParseInfo(s) == Combine(ParseInfoLine(line), ParseInfo(rest))
  {
  }

  /** A report line without its break reads as its label and value. */
  lemma ParseLineOf(name: string, value: int)
    requires IsLabel(name)
    ensures ParseInfoLine("    " + name + ": " + IntToString(value)) == Some((name, value))
  {
    var d := IntToString(value);
    IntTextNoBreak(value);
    IntToStringParses(value);
    var line := "    " + name + ": " + d;
    var body := line[4..];
    assert line[..4] == "    ";
    assert body == name + (": " + d);
    FindAfter(name, ": " + d, ':');
    assert body[..|name|] == name && body[|name| + 2..] == d;
    ParseInfoLineAt(line, |name|, name, d);
  }

  /** `parse_info` on one line whose first colon, after the indent, is at `k`. */
  lemma ParseInfoLineAt(line: string, k: nat, name: string, d: string)
    requires |line| >= 4 && line[..4] == "    "
    requires Find(line[4..], ':') == k && k + 2 <= |line[4..]| && line[4..][k + 1] == ' '
    requires line[4..][..k] == name && line[4..][k + 2..] == d && IsIntText(d)
    ensures ParseInfoLine(line) == Some((name, ParseInt(d)))
  {
  }

  predicate NoBreak(t: string)
  {
    '\n' !in t
  }

  /** One line of the report reads back as its label and value, and the
      lines after it are read on from where it ends. */
  lemma ParseInfoLineOf(name: string, value: int, rest: string)
    requires IsLabel(name)
    requires ParseInfo(rest).Some?
    ensures ParseInfo(InfoLine(name, value) + rest) == Some([(name, value)] + ParseInfo(rest).value)
  {
    var d := IntToString(value);
    IntTextNoBreak(value);
    var line := "    " + name + ": " + d;
    ParseLineOf(name, value);
    assert InfoLine(name, value) + rest == line + ("\n" + rest);
    LabelLineNoBreak(name, d);
    ParseInfoSplit(line, rest);
  }

  /** A line built from a label and break-free text has no line break. */
  lemma LabelLineNoBreak(name: string, d: string)
    requires IsLabel(name) && NoBreak(d)
    ensures NoBreak("    " + name + ": " + d)
  {
  }

  /** A report whose labels have no ':' or line break reads back as its
      entries. */
  lemma {:induction false} ParseReport(es: seq<(string, int)>)
    requires forall k :: 0 <= k < |es| ==> IsLabel(es[k].0)
    ensures ParseInfo(Report(es)) == Some(es)
  {
    if es != [] {
      ParseReport(es[1..]);
      ReportFirst(es);
      ParseInfoLineOf(es[0].0, es[0].1, Report(es[1..]));
      assert [es[0]] + es[1..] == es;
    }
  }

  /** Joined strings, split after the first. */
  lemma {:induction false} JoinFirst(ls: seq<string>)
    requires ls != []
    ensures Join(ls) == ls[0] + Join(ls[1..])
    decreases |ls|
  {
    var n := |ls|;
    if n == 1 {
      assert ls[..0] == [] && ls[1..] == [];
    } else {
      var init := ls[..n - 1];
      JoinFirst(init);
      assert init[1..] == ls[1..][..n - 2];
      assert ls[1..][n - 2] == ls[n - 1];
      assert Join(ls) == (ls[0] + Join(init[1..])) + ls[n - 1];
    }
  }

  /** A report split after its first line. */
  lemma ReportFirst(es: seq<(string, int)>)
    requires es != []
    ensures Report(es) == InfoLine(es[0].0, es[0].1) + Report(es[1..])
  {
    var ls := InfoLines(es);
    JoinFirst(ls);
    assert ls[1..] == InfoLines(es[1..]);
  }

  /** `print_info` writes the report of its seven entries. */
  lemma PrintInfoIsReport(h: Header)
    ensures PrintInfo(h) == Report(InfoEntries(h))
  {
    var es := InfoEntries(h);
    LinesOfSeven(es);
    JoinSeven(InfoLine(es[0].0, es[0].1), InfoLine(es[1].0, es[1].1), InfoLine(es[2].0, es[2].1),
              InfoLine(es[3].0, es[3].1), InfoLine(es[4].0, es[4].1), InfoLine(es[5].0, es[5].1),
              InfoLine(es[6].0, es[6].1));
  }

  lemma LinesOfSeven(es: seq<(string, int)>)
    requires |es| == 7
    ensures InfoLines(es) == [InfoLine(es[0].0, es[0].1), InfoLine(es[1].0, es[1].1),
                              InfoLine(es[2].0, es[2].1), InfoLine(es[3].0, es[3].1),
                              InfoLine(es[4].0, es[4].1), InfoLine(es[5].0, es[5].1),
                              InfoLine(es[6].0, es[6].1)]
  {
    var ls := InfoLines(es);
    forall k | 0 <= k < 7
      ensures ls[k] == InfoLine(es[k].0, es[k].1)
    {
      InfoLineAt(es, k);
    }
  }

  lemma {:induction false} InfoLineAt(es: seq<(string, int)>, k: nat)
    requires k < |es|
    ensures InfoLines(es)[k] == InfoLine(es[k].0, es[k].1)
    decreases k
  {
    if k > 0 {
      InfoLineAt(es[1..], k - 1);
    }
  }

  lemma JoinSeven(l1: string, l2: string, l3: string, l4: string, l5: string, l6: string, l7: string)
    ensures Join([l1, l2, l3, l4, l5, l6, l7]) == l1 + l2 + l3 + l4 + l5 + l6 + l7
  {
    var ls := [l1, l2, l3, l4, l5, l6, l7];
    assert ls[..0] == [];
    assert Join(ls[..1]) == "" + l1 == l1;
    assert ls[..2][..1] == ls[..1];
    assert Join(ls[..2]) == l1 + l2;
    assert ls[..3][..2] == ls[..2];
    assert Join(ls[..3]) == l1 + l2 + l3;
    assert ls[..4][..3] == ls[..3];
    assert Join(ls[..4]) == l1 + l2 + l3 + l4;
    assert ls[..5][..4] == ls[..4];
    assert Join(ls[..5]) == l1 + l2 + l3 + l4 + l5;
    assert ls[..6][..5] == ls[..5];
    assert Join(ls[..6]) == l1 + l2 + l3 + l4 + l5 + l6;
    assert ls[..6] == ls[..|ls| - 1];
  }

  /** The seven labels `print_info` writes are labels. */
  lemma InfoLabels(h: Header)
    ensures forall k :: 0 <= k < |InfoEntries(h)| ==> IsLabel(InfoEntries(h)[k].0)
  {
    ShortLabels();
    LongLabels();
  }

  lemma ShortLabels()
    ensures IsLabel("Width") && IsLabel("Height") && IsLabel("Pixel start") && IsLabel("Compression")
  {
  }

  lemma LongLabels()
    ensures IsLabel("Number of planes") && IsLabel("Bits per pixel") && IsLabel("Extra header size")
  {
  }

  /** Reading the report of `print_info` back gives its seven labels, in
      order, each with the value of the field it reports. */
  lemma ParseInfoPrintInfo(h: Header)
    ensures ParseInfo(PrintInfo(h)) == Some([("Width", h.width), ("Height", h.height),
                                             ("Pixel start", h.pixelStart),
                                             ("Number of planes", h.planes),
                                             ("Bits per pixel", h.bitCount),
                                             ("Compression", h.compression),
                                             ("Extra header size", h.extraSize)])
  {
    PrintInfoIsReport(h);
    InfoLabels(h);
    ParseReport(InfoEntries(h));
  }

  /** The report determines the seven fields it prints. */
  lemma PrintInfoDetermines(h: Header, g: Header)
    requires PrintInfo(h) == PrintInfo(g)
    ensures h.width == g.width && h.height == g.height && h.pixelStart == g.pixelStart
    ensures h.planes == g.planes && h.bitCount == g.bitCount && h.compression == g.compression
    ensures h.extraSize == g.extraSize
  {
    ParseInfoPrintInfo(h);
    ParseInfoPrintInfo(g);
  }

  /** The report the bitmap unit test expects for its 1980 x 1320 image with
      84 extra header bytes. */
  lemma PrintInfoExample(h: Header)
    requires h.width == 1980 && h.height == 1320 && h.pixelStart == 138
    requires h.planes == 1 && h.bitCount == 24 && h.compression == 0 && h.extraSize == 84
    ensures PrintInfo(h) == "    Width: 1980\n" + "    Height: 1320\n" + "    Pixel start: 138\n"
                            + "    Number of planes: 1\n" + "    Bits per pixel: 24\n"
                            + "    Compression: 0\n" + "    Extra header size: 84\n"
  {
    ExampleNumbers();
    ExampleDimensionLines();
    ExampleLayoutLines();
    ExampleFormatLines();
    ExampleExtraLine();
  }

  lemma ExampleDimensionLines()
    requires IntToString(1980) == "1980" && IntToString(1320) == "1320"
    ensures InfoLine("Width", 1980) == "    Width: 1980\n"
    ensures InfoLine("Height", 1320) == "    Height: 1320\n"
  {
  }

  lemma ExampleLayoutLines()
    requires IntToString(138) == "138" && IntToString(1) == "1"
    ensures InfoLine("Pixel start", 138) == "    Pixel start: 138\n"
    ensures InfoLine("Number of planes", 1) == "    Number of planes: 1\n"
  {
  }

  lemma ExampleFormatLines()
    requires IntToString(24) == "24" && IntToString(0) == "0"
    ensures InfoLine("Bits per pixel", 24) == "    Bits per pixel: 24\n"
    ensures InfoLine("Compression", 0) == "    Compression: 0\n"
  {
  }

  lemma ExampleExtraLine()
    requires IntToString(84) == "84"
    ensures InfoLine("Extra header size", 84) == "    Extra header size: 84\n"
  {
  }

  lemma ExampleNumbers()
    ensures IntToString(1980) == "1980" && IntToString(1320) == "1320" && IntToString(138) == "138"
    ensures IntToString(1) == "1" && IntToString(24) == "24" && IntToString(0) == "0"
    ensures IntToString(84) == "84"
  {
    assert NatToString(19) == "19" && NatToString(198) == "198" && NatToString(1980) == "1980";
    assert NatToString(13) == "13" && NatToString(132) == "132" && NatToString(1320) == "1320";
    assert NatToString(138) == "138" && NatToString(84) == "84" && NatToString(24) == "24";
  }
}
