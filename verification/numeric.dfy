/** Numeric conversion of one trimmed field (`parse_int`, `parse_float`).

    Integer parsing is modelled down to the character level: `std::from_chars`
    in base 10 accepts an optional `-` (only when the destination is signed)
    followed by the longest run of decimal digits, and reports
    `invalid_argument` when there is no digit and `result_out_of_range` when
    the value does not fit. Floating-point parsing is a parameter: a total
    function from the text to either a value and the number of characters it
    covered, or a failure. */
module Numeric {
  import opened Types

  predicate IsDigit(c: char)
  {
    '0' <= c <= '9'
  }

  predicate AllDigits(s: string)
  {
    forall i :: 0 <= i < |s| ==> IsDigit(s[i])
  }

  function DigitValue(c: char): nat
    requires IsDigit(c)
  {
    c as int - '0' as int
  }

  function DigitChar(n: nat): (c: char)
    requires n < 10
    ensures IsDigit(c) && DigitValue(c) == n
  {
    ('0' as int + n) as char
  }

  /** The value of a digit string, most significant digit first. */
  function DecimalValue(ds: string): nat
    requires AllDigits(ds)
  {
    if ds == [] then 0 else 10 * DecimalValue(ds[..|ds| - 1]) + DigitValue(ds[|ds| - 1])
  }

  /** The length of the longest all-digit prefix. */
  function DigitRun(s: string): (n: nat)
    ensures n <= |s| && AllDigits(s[..n])
    ensures n < |s| ==> !IsDigit(s[n])
  {
    if |s| > 0 && IsDigit(s[0]) then 1 + DigitRun(s[1..]) else 0
  }

  lemma DigitRunOfDigits(s: string)
    requires AllDigits(s)
    ensures DigitRun(s) == |s|
  {
  }

  /** A complete base-10 numeral: digits, or (for a signed type) `-` then digits. */
  predicate IsNumeral(t: string, signed: bool)
  {
    || (|t| > 0 && AllDigits(t))
    || (signed && |t| > 1 && t[0] == '-' && AllDigits(t[1..]))
  }

  /** The integer a numeral denotes. */
  function NumeralValue(t: string): int
    requires IsNumeral(t, true)
  {
    if t[0] == '-' then -(DecimalValue(t[1..]) as int) else DecimalValue(t)
  }

  predicate IsIntType(d: DestType)
  {
    d.SInt? || d.UInt?
  }

  /** `v` is representable in the integer destination `d`. */
  predicate InRange(v: int, d: DestType)
    requires IsIntType(d)
  {
    if d.SInt? then d.lo <= v <= d.hi else 0 <= v <= d.hi
  }

  /** What `std::from_chars(first, last, value, 10)` reports for an integer type. */
  datatype IntScan =
    | IntParsed(value: int, consumed: nat)
    | IntNoMatch
    | IntOutOfRange(consumed: nat)

  /** `std::from_chars` in base 10 for the integer type `d`: it reads the
      longest prefix matching the numeral pattern and never more. */
  function FromCharsInt(s: string, d: DestType): (r: IntScan)
    requires IsIntType(d)
    ensures r.IntParsed? ==> 0 < r.consumed <= |s| && IsNumeral(s[..r.consumed], d.SInt?)
    ensures r.IntParsed? ==> r.value == NumeralValue(s[..r.consumed]) && InRange(r.value, d)
    ensures r.IntParsed? && r.consumed < |s| ==> !IsDigit(s[r.consumed])
    ensures IsNumeral(s, d.SInt?) ==>
              if InRange(NumeralValue(s), d) then r == IntParsed(NumeralValue(s), |s|)
              else r.IntOutOfRange?
  {
    var neg := d.SInt? && |s| > 0 && s[0] == '-';
    var start := if neg then 1 else 0;
    var n := DigitRun(s[start..]);
    assert s[start..][..n] == s[start..start + n];
    if n == 0 then
      IntNoMatch
    else
      var mag := DecimalValue(s[start..start + n]);
      var v: int := if neg then -(mag as int) else mag;
      assert neg ==> s[..start + n][1..] == s[start..start + n];
      assert !neg ==> s[..start + n] == s[start..start + n];
      assert IsNumeral(s, d.SInt?) ==> start + n == |s| && v == NumeralValue(s) by {
        if IsNumeral(s, d.SInt?) {
          assert AllDigits(s[start..]);
          DigitRunOfDigits(s[start..]);
          assert s[start..start + n] == s[start..];
        }
      }
      if InRange(v, d) then IntParsed(v, start + n) else IntOutOfRange(start + n)
  }

  /** The field text after removing one leading `+`. */
  function StripPlus(s: string): string
  {
    if |s| > 0 && s[0] == '+' then s[1..] else s
  }

  /** `parse_int<Int>(s, 10)`: the empty text, a `-` for an unsigned type,
      and anything that is not one complete in-range numeral after one `+` is
      removed are the three failures, in that order. */
  function ParseInt(s: string, d: DestType): (r: Result<int>)
    requires IsIntType(d)
    ensures s == [] ==> r == Err(ScanError(MsgEmptyInteger))
    ensures s != [] && d.UInt? && s[0] == '-' ==> r == Err(ScanError(MsgNegativeUnsigned))
    ensures r.Ok? <==> s != [] && IsNumeral(StripPlus(s), d.SInt?)
                       && InRange(NumeralValue(StripPlus(s)), d)
    ensures r.Ok? ==> r.value == NumeralValue(StripPlus(s)) && InRange(r.value, d)
    ensures s != [] && !(d.UInt? && s[0] == '-') && r.Err? ==> r.error == ScanError(MsgInvalidInteger)
  {
    if s == [] then
      Err(ScanError(MsgEmptyInteger))
    else if d.UInt? && s[0] == '-' then
      Err(ScanError(MsgNegativeUnsigned))
    else
      var t := if s[0] == '+' then s[1..] else s;
      match FromCharsInt(t, d)
      case IntParsed(v, n) =>
        if n == |t| then
          assert t[..n] == t;
          Ok(v)
        else
          Err(ScanError(MsgInvalidInteger))
      case _ => Err(ScanError(MsgInvalidInteger))
  }

  /** The canonical decimal spelling of a natural number. */
  function ShowNat(n: nat): (r: string)
    ensures |r| > 0 && AllDigits(r) && DecimalValue(r) == n
  {
    if n < 10 then
      [DigitChar(n)]
    else
      var r := ShowNat(n / 10) + [DigitChar(n % 10)];
      assert r[..|r| - 1] == ShowNat(n / 10);
      r
  }

  /** The canonical decimal spelling of an integer. */
  function ShowInt(v: int): (r: string)
    ensures IsNumeral(r, true) && NumeralValue(r) == v
    ensures IsNumeral(r, false) <==> v >= 0
  {
    if v < 0 then
      var r := "-" + ShowNat(-v);
      assert r[1..] == ShowNat(-v);
      r
    else ShowNat(v)
  }

  /** Round trip: every representable integer, spelled in decimal with or
      without a leading `+`, parses back to itself. */
  lemma {:induction false} ParseIntShowInt(v: int, d: DestType)
    requires IsIntType(d) && InRange(v, d)
    ensures ParseInt(ShowInt(v), d) == Ok(v)
    ensures ParseInt("+" + ShowInt(v), d) == Ok(v)
  {
    var t := ShowInt(v);
    assert StripPlus(t) == t;
    assert ("+" + t)[1..] == t;
    assert StripPlus("+" + t) == t;
  }

  /** What `std::from_chars(first, last, value, std::chars_format::general)`
      reports for a floating-point type: the value and how many characters
      it covered, or a failure (`invalid_argument` or `result_out_of_range`). */
  datatype FloatScan<F> = FloatParsed(value: F, consumed: nat) | FloatFailed

  /** `parse_float<Float>(s)`: the empty text fails first; otherwise the
      parser must succeed and cover the whole text. */
  function ParseFloat<F>(s: string, fromChars: string -> FloatScan<F>): (r: Result<F>)
    ensures s == [] ==> r == Err(ScanError(MsgEmptyFloating))
    ensures r.Ok? <==> s != [] && fromChars(s).FloatParsed? && fromChars(s).consumed == |s|
    ensures r.Ok? ==> r.value == fromChars(s).value
    ensures s != [] && r.Err? ==> r.error == ScanError(MsgInvalidFloating)
  {
    if s == [] then
      Err(ScanError(MsgEmptyFloating))
    else
      match fromChars(s)
      case FloatParsed(v, n) =>
        if n == |s| then Ok(v) else Err(ScanError(MsgInvalidFloating))
      case FloatFailed => Err(ScanError(MsgInvalidFloating))
  }
}
