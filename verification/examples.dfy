/** The failure scenarios of the library's own test suite, as lemmas. Each of
    their formats is written without braces, so none of them has a
    placeholder: the scan stops at the tokenizer, which does not find the
    format's text in the input, before any specifier, type or number is
    looked at. */
module Examples {
  import opened Types
  import opened Numeric
  import opened Search
  import opened FormatShape
  import opened Scanner

  /** A word where a signed integer is expected. */
  lemma NotANumberScenario<F>(fromChars: string -> FloatScan<F>)
    ensures Scan("val=foo", "val=%d", [Int32], fromChars) == Err(ScanError(MsgUnformatted))
  {
    ScanWithoutPlaceholder("val=foo", "val=%d", [Int32], fromChars);
    assert !OccursAt("val=foo", "val=%d", 0) by { assert "val=foo"[4] != "val=%d"[4]; }
    assert !OccursAt("val=foo", "val=%d", 1) by { assert "val=foo"[1] != "val=%d"[0]; }
  }

  /** A negative number for an unsigned type. */
  lemma NegativeUnsignedScenario<F>(fromChars: string -> FloatScan<F>)
    ensures Scan("u=-3", "u=%u", [UInt32], fromChars) == Err(ScanError(MsgUnformatted))
  {
    ScanWithoutPlaceholder("u=-3", "u=%u", [UInt32], fromChars);
    assert !OccursAt("u=-3", "u=%u", 0) by { assert "u=-3"[2] != "u=%u"[2]; }
  }

  /** Text that is not a floating-point number. */
  lemma InvalidFloatScenario<F>(fromChars: string -> FloatScan<F>)
    ensures Scan("f=nanX", "f=%f", [Float], fromChars) == Err(ScanError(MsgUnformatted))
  {
    ScanWithoutPlaceholder("f=nanX", "f=%f", [Float], fromChars);
    assert !OccursAt("f=nanX", "f=%f", 0) by { assert "f=nanX"[2] != "f=%f"[2]; }
    assert !OccursAt("f=nanX", "f=%f", 1) by { assert "f=nanX"[1] != "f=%f"[0]; }
    assert !OccursAt("f=nanX", "f=%f", 2) by { assert "f=nanX"[2] != "f=%f"[0]; }
  }

  /** A specifier outside the table. */
  lemma UnknownSpecifierScenario<F>(fromChars: string -> FloatScan<F>)
    ensures Scan("x=1", "x=%q", [Int32], fromChars) == Err(ScanError(MsgUnformatted))
  {
    ScanWithoutPlaceholder("x=1", "x=%q", [Int32], fromChars);
  }
}
