/** Result and error values of a scan, and the runtime descriptors that stand in
    for the C++ destination type pack.

    `ScanError` carries only its message (the C++ class stores the string it was
    built from and returns it from `message()`); `ScanResult` carries only the
    tuple of converted values. Both are immutable datatypes with a single
    constructor, so neither has a default value nor a mutator. */
module Types {

  datatype Option<+T> = None | Some(value: T)

  /** The one error value a scan reports. */
  datatype ScanError = ScanError(message: string)

  /** `std::expected<T, scan_error>`. */
  datatype Result<+T> = Ok(value: T) | Err(error: ScanError)

  /** A destination type, described at run time. Integer types carry their
      inclusive range, so that `int`, `long`, `unsigned char`, ... are all
      instances of `SInt` or `UInt`. `StrView` is `std::string_view` and
      `Str` is `std::string`. */
  datatype DestType =
    | SInt(lo: int, hi: int)
    | UInt(hi: int)
    | Float
    | StrView
    | Str

  const Int32: DestType := SInt(-0x8000_0000, 0x7FFF_FFFF)
  const UInt32: DestType := UInt(0xFFFF_FFFF)

  /** One converted field. `F` is the (uninterpreted) floating-point type. */
  datatype Value<F> = IntVal(i: int) | FloatVal(f: F) | StrVal(s: string)

  /** The value `v` can be stored in a destination of type `d`. */
  predicate HasType<F>(v: Value<F>, d: DestType)
  {
    match d
    case SInt(lo, hi) => v.IntVal? && lo <= v.i <= hi
    case UInt(hi) => v.IntVal? && 0 <= v.i <= hi
    case Float => v.FloatVal?
    case StrView => v.StrVal?
    case Str => v.StrVal?
  }

  /** The successful outcome of a scan: one value per destination type. */
  datatype ScanResult<F> = ScanResult(values: seq<Value<F>>)

  // Messages, exactly as the library spells them.
  const MsgUnformatted := "Unformatted text in input and format string are different"
  const MsgPartsMismatch := "Input string and formatting parsing error"
  const MsgArity := "Format placeholders count does not match destination type pack size"
  const MsgUnknownSpecifier := "unknown conversion specifier: "
  const MsgEmptyInteger := "empty input for integer"
  const MsgNegativeUnsigned := "negative value for unsigned type"
  const MsgInvalidInteger := "invalid integer format"
  const MsgEmptyFloating := "empty input for floating"
  const MsgInvalidFloating := "invalid floating format"

  /** "specifier '<c>' incompatible with destination type" */
  function MsgIncompatible(c: char): string
  {
    "specifier '" + [c] + "' incompatible with destination type"
  }
}
