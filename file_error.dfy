/** The kinds of file error raised by the codec and their human-readable
    messages (`to_string`). */
module FileErrors {
  import opened Results

  /** `file_error_kind`, in declaration order. The source's spelling
      `invlaid_bit_count` is written `InvalidBitCount` here. */
  datatype FileErrorKind =
    | CannotOpen
    | CannotRead
    | CannotReadExtra
    | CannotWrite
    | InvalidMagicNumber
    | InvalidPlanes
    | InvalidBitCount
    | InvalidCompression
    | InvalidPixelStart

  const NumKinds := 9

  /** The enumerator's underlying value: its position in the declaration. */
  function Ordinal(k: FileErrorKind): (v: int)
    ensures 0 <= v < NumKinds
  {
    match k
    case CannotOpen => 0
    case CannotRead => 1
    case CannotReadExtra => 2
    case CannotWrite => 3
    case InvalidMagicNumber => 4
    case InvalidPlanes => 5
    case InvalidBitCount => 6
    case InvalidCompression => 7
    case InvalidPixelStart => 8
  }

  /** The enumerator that has underlying value `v`, if there is one. A C++
      scoped enum can also hold any other value, such as `file_error_kind{-1}`. */
  function FromOrdinal(v: int): (k: Option<FileErrorKind>)
    ensures k.Some? <==> 0 <= v < NumKinds
    ensures k.Some? ==> Ordinal(k.value) == v
  {
    if v == 0 then Some(CannotOpen)
    else if v == 1 then Some(CannotRead)
    else if v == 2 then Some(CannotReadExtra)
    else if v == 3 then Some(CannotWrite)
    else if v == 4 then Some(InvalidMagicNumber)
    else if v == 5 then Some(InvalidPlanes)
    else if v == 6 then Some(InvalidBitCount)
    else if v == 7 then Some(InvalidCompression)
    else if v == 8 then Some(InvalidPixelStart)
    else None
  }

  const UnknownError := "Unknown error"

  /** `to_string` on an enum value given by its underlying integer: one fixed
      message per declared kind, "Unknown error" for every other value. It is
      total. */
  function ToString(code: int): (msg: string)
    ensures msg == UnknownError <==> !(0 <= code < NumKinds)
  {
    match FromOrdinal(code)
    case None => UnknownError
    case Some(k) =>
      match k
      case CannotOpen => "Cannot open file"
      case CannotRead => "Cannot read header"
      case CannotReadExtra => "Cannot read extra header"
      case CannotWrite => "Cannot write header"
      case InvalidMagicNumber => "Invalid bitmap header"
      case InvalidPlanes => "Invalid number of planes"
      case InvalidBitCount => "Invalid number of bits per pixel"
      case InvalidCompression => "Unexpected comperession level"
      case InvalidPixelStart => "Invalid pixel start"
  }

  /** Every kind is its own enumerator again after the round trip through its
      underlying value. */
  lemma OrdinalInjective(k1: FileErrorKind, k2: FileErrorKind)
    ensures FromOrdinal(Ordinal(k1)) == Some(k1)
    ensures Ordinal(k1) == Ordinal(k2) ==> k1 == k2
  {
  }

  /** The nine messages are pairwise distinct, so a message names its kind. */
  lemma MessagesDistinct(k1: FileErrorKind, k2: FileErrorKind)
    ensures k1 != k2 ==> ToString(Ordinal(k1)) != ToString(Ordinal(k2))
  {
  }

  /** The messages the unit tests expect, including the one for a value that
      is no enumerator. */
  lemma ToStringExamples()
    ensures ToString(Ordinal(CannotOpen)) == "Cannot open file"
    ensures ToString(Ordinal(InvalidPixelStart)) == "Invalid pixel start"
    ensures ToString(-1) == "Unknown error"
  {
  }
}
