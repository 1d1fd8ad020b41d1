/** Specifier resolution and per-field conversion (`conv`, `parse_conv`,
    `parse_value_with_format`). */
module Convert {
  import opened Types
  import opened Whitespace
  import opened Numeric

  /** The four conversion kinds of the closed specifier table. */
  datatype Conv = IntConv | UIntConv | FloatConv | StringConv

  /** The exact specifier token for each kind. */
  function Token(k: Conv): string
  {
    match k
    case IntConv => "%d"
    case StringConv => "%s"
    case UIntConv => "%u"
    case FloatConv => "%f"
  }

  /** The character named in an incompatibility message. */
  function SpecChar(k: Conv): char
  {
    match k
    case IntConv => 'd'
    case StringConv => 's'
    case UIntConv => 'u'
    case FloatConv => 'f'
  }

  /** Which destination-type family each kind accepts. */
  predicate Compatible(k: Conv, d: DestType)
  {
    match k
    case StringConv => d.StrView? || d.Str?
    case FloatConv => d.Float?
    case UIntConv => d.UInt?
    case IntConv => d.SInt?
  }

  /** `parse_conv`: exactly the four tokens resolve, each to its own kind;
      every other text is an unknown specifier, reported with the text. */
  function ParseConv(fmt: string): (r: Result<Conv>)
    ensures r.Ok? <==> exists k :: Token(k) == fmt
    ensures r.Ok? ==> Token(r.value) == fmt
    ensures r.Err? ==> r.error == ScanError(MsgUnknownSpecifier + fmt)
  {
    if fmt == "%d" then assert Token(IntConv) == fmt; Ok(IntConv)
    else if fmt == "%s" then assert Token(StringConv) == fmt; Ok(StringConv)
    else if fmt == "%u" then assert Token(UIntConv) == fmt; Ok(UIntConv)
    else if fmt == "%f" then assert Token(FloatConv) == fmt; Ok(FloatConv)
    else
      assert forall k :: Token(k) != fmt;
      Err(ScanError(MsgUnknownSpecifier + fmt))
  }

  /** Round trip: each kind's token resolves back to that kind. */
  lemma ParseConvToken(k: Conv)
    ensures ParseConv(Token(k)) == Ok(k)
  {
  }

  /** The outcome of converting `input` with the resolved kind `k` against
      `d`, once the kinds are known to agree: a string is the text itself; a
      number is parsed from the trimmed text, and every error is one of the
      parsers' own. */
  function ConvertKind<F>(input: string, k: Conv, d: DestType,
                          fromChars: string -> FloatScan<F>): (r: Result<Value<F>>)
    requires Compatible(k, d)
    ensures r.Ok? ==> HasType(r.value, d)
    ensures k == StringConv ==> r == Ok(StrVal(input))
    ensures k != StringConv && r.Err? ==>
              r.error.message in {MsgEmptyInteger, MsgNegativeUnsigned, MsgInvalidInteger,
                                  MsgEmptyFloating, MsgInvalidFloating}
  {
    match k
    case StringConv => Ok(StrVal(input))
    case FloatConv =>
      var p := ParseFloat(Trim(input), fromChars);
      if p.Ok? then Ok(FloatVal(p.value)) else Err(p.error)
    case UIntConv =>
      var p := ParseInt(Trim(input), d);
      if p.Ok? then Ok(IntVal(p.value)) else Err(p.error)
    case IntConv =>
      var p := ParseInt(Trim(input), d);
      if p.Ok? then Ok(IntVal(p.value)) else Err(p.error)
  }

  /** `parse_value_with_format<T>(input, fmt)`. The checks run in a fixed
      order: an unknown specifier first, then the destination family, and
      only then trimming and parsing. A value it returns always fits its
      destination. */
  function ParseValueWithFormat<F>(input: string, fmt: string, d: DestType,
                                   fromChars: string -> FloatScan<F>): (r: Result<Value<F>>)
    ensures ParseConv(fmt).Err? ==> r == Err(ScanError(MsgUnknownSpecifier + fmt))
    ensures ParseConv(fmt).Ok? && !Compatible(ParseConv(fmt).value, d) ==>
              r == Err(ScanError(MsgIncompatible(SpecChar(ParseConv(fmt).value))))
    ensures r.Ok? ==> HasType(r.value, d)
    ensures fmt == "%s" && (d.StrView? || d.Str?) ==> r == Ok(StrVal(input))
    ensures (fmt == "%d" && d.SInt?) || (fmt == "%u" && d.UInt?) ==>
              && (r.Ok? <==> ParseInt(Trim(input), d).Ok?)
              && (r.Ok? ==> r.value == IntVal(ParseInt(Trim(input), d).value))
              && (r.Err? ==> r.error == ParseInt(Trim(input), d).error)
    ensures fmt == "%f" && d.Float? ==>
              && (r.Ok? <==> ParseFloat(Trim(input), fromChars).Ok?)
              && (r.Ok? ==> r.value == FloatVal(ParseFloat(Trim(input), fromChars).value))
              && (r.Err? ==> r.error == ParseFloat(Trim(input), fromChars).error)
  {
    match ParseConv(fmt)
    case Err(e) => Err(e)
    case Ok(k) =>
      if Compatible(k, d) then ConvertKind(input, k, d, fromChars)
      else Err(ScanError(MsgIncompatible(SpecChar(k))))
  }

  /** Round trip through a field: a representable integer written in
      decimal, with white space around it, converts back to itself under the
      specifier of its signedness. */
  lemma {:induction false} ConvertShowInt<F>(pre: string, v: int, post: string, d: DestType,
                                            fromChars: string -> FloatScan<F>)
    requires AllSpace(pre) && AllSpace(post)
    requires IsIntType(d) && InRange(v, d)
    ensures ParseValueWithFormat(pre + ShowInt(v) + post, if d.SInt? then "%d" else "%u",
                                 d, fromChars) == Ok(IntVal(v))
  {
    var t := ShowInt(v);
    NumeralUnpadded(t);
    TrimPadded(pre, t, post);
    ParseIntShowInt(v, d);
  }

  /** A numeral neither starts nor ends with white space. */
  lemma NumeralUnpadded(t: string)
    requires IsNumeral(t, true)
    ensures !IsSpace(t[0]) && !IsSpace(t[|t| - 1])
  {
    if t[0] != '-' {
      assert IsDigit(t[0]);
    }
    if |t| > 1 {
      assert IsDigit(t[1..][|t| - 2]);
    } else {
      assert IsDigit(t[0]);
    }
  }
}
