/** End to end: integers written out between literal separators scan back
    to themselves, through a format that carries the same separators around
    one integer specifier per value. */
module RoundTrip {
  import opened Types
  import opened Search
  import opened Whitespace
  import opened Numeric
  import opened Convert
  import opened FormatShape
  import opened Tokenizer
  import opened Scanner

  /** The specifier that reads an integer of type `d`. */
  function IntSpec(d: DestType): string
    requires IsIntType(d)
  {
    if d.SInt? then "%d" else "%u"
  }

  /** One integer specifier per destination type. */
  function IntSpecs(types: seq<DestType>): (specs: seq<string>)
    requires forall i :: 0 <= i < |types| ==> IsIntType(types[i])
    ensures |specs| == |types|
  {
    seq(|types|, i requires 0 <= i < |types| => IntSpec(types[i]))
  }

  /** A literal a numeral cannot run into: it starts with a character that
      no decimal numeral contains. */
  predicate Boundary(lit: string)
  {
    |lit| > 0 && !IsDigit(lit[0]) && lit[0] != '-'
  }

  /** The decimal spellings of `vs`. */
  function Fields(vs: seq<int>): (fs: seq<string>)
    ensures |fs| == |vs|
    ensures forall i :: 0 <= i < |vs| ==> fs[i] == ShowInt(vs[i])
  {
    if vs == [] then []
    else
      var fs := [ShowInt(vs[0])] + Fields(vs[1..]);
      assert forall i :: 0 < i < |vs| ==> fs[i] == Fields(vs[1..])[i - 1];
      fs
  }

  /** `vs` written out, each value followed by its literal: `lits[i]` comes
      after value `i`, so the last literal is the text after the last value. */
  function Render(vs: seq<int>, lits: seq<string>): string
    requires |vs| == |lits| >= 1
    decreases |vs|
  {
    ShowInt(vs[0]) + lits[0] + (if |vs| == 1 then [] else Render(vs[1..], lits[1..]))
  }

  /** The literals after the values: all but the last are boundary literals,
      and the last is empty or one too. */
  predicate Separating(lits: seq<string>)
  {
    && |lits| >= 1
    && (forall i :: 0 <= i < |lits| - 1 ==> Boundary(lits[i]))
    && (lits[|lits| - 1] == [] || Boundary(lits[|lits| - 1]))
  }

  /** Every character of a numeral is a digit or the minus sign. */
  lemma NumeralChar(t: string, j: nat)
    requires IsNumeral(t, true) && j < |t|
    ensures IsDigit(t[j]) || t[j] == '-'
  {
    if j > 0 && !AllDigits(t) {
      assert t[j] == t[1..][j - 1];
    }
  }

  /** A boundary literal right after a numeral is first found right there. */
  lemma FirstMatchNumeral(v: int, lit: string, after: string)
    requires Boundary(lit)
    ensures FirstMatchAfter(ShowInt(v) + lit + after, ShowInt(v), lit)
  {
    var f := ShowInt(v);
    var s := f + lit + after;
    assert s[..|f|] == f;
    assert s[|f|..|f| + |lit|] == lit;
    forall j | 0 <= j < |f| ensures !OccursAt(s, lit, j) {
      NumeralChar(f, j);
      assert s[j] == f[j];
      if j + |lit| <= |s| {
        assert s[j..j + |lit|][0] == s[j];
      }
    }
  }

  /** The rendered text is cut back into the spellings of the values. */
  lemma {:induction false} RenderAnchored(vs: seq<int>, lits: seq<string>)
    requires |vs| == |lits| && Separating(lits)
    decreases |vs|
    ensures Anchored(Render(vs, lits), lits, Fields(vs))
  {
    if |vs| == 1 {
      RenderAnchoredLast(vs, lits);
    } else {
      assert Separating(lits[1..]) by {
        assert forall i :: 0 <= i < |lits| - 2 ==> lits[1..][i] == lits[i + 1];
      }
      RenderAnchored(vs[1..], lits[1..]);
      RenderAnchoredStep(vs, lits);
    }
  }

  /** The last value and the text after it. */
  lemma RenderAnchoredLast(vs: seq<int>, lits: seq<string>)
    requires |vs| == |lits| == 1
    requires lits[0] == [] || Boundary(lits[0])
    ensures Anchored(Render(vs, lits), lits, Fields(vs))
  {
    var f := ShowInt(vs[0]);
    assert Render(vs, lits) == f + lits[0] + [];
    assert Fields(vs) == [f];
    if lits[0] != [] {
      FirstMatchNumeral(vs[0], lits[0], []);
    }
  }

  /** One value and the separator after it, in front of a rendered rest. */
  lemma RenderAnchoredStep(vs: seq<int>, lits: seq<string>)
    requires |vs| == |lits| > 1 && Boundary(lits[0])
    requires Anchored(Render(vs[1..], lits[1..]), lits[1..], Fields(vs[1..]))
    ensures Anchored(Render(vs, lits), lits, Fields(vs))
  {
    var f := ShowInt(vs[0]);
    var rest := Render(vs[1..], lits[1..]);
    FirstMatchNumeral(vs[0], lits[0], rest);
    var s := f + lits[0] + rest;
    assert s[|f| + |lits[0]|..] == rest;
    AnchoredCons(s, lits[0], lits[1..], f, Fields(vs[1..]));
    assert [lits[0]] + lits[1..] == lits;
  }

  /** The format's literal text holds no placeholder of its own: no `{`
      before the last placeholder, and no `{` followed by `}` after it. */
  predicate PlainLiterals(l0: string, lits: seq<string>)
  {
    && |lits| >= 1
    && Lacks(l0, '{')
    && (forall i :: 0 <= i < |lits| - 1 ==> Lacks(lits[i], '{'))
    && NoPlaceholder(lits[|lits| - 1])
  }

  /** The format's shape: the literals around one integer specifier per type. */
  lemma RoundTripShape(l0: string, lits: seq<string>, types: seq<DestType>)
    requires |lits| == |types| && PlainLiterals(l0, lits) && Separating(lits)
    requires forall i :: 0 <= i < |types| ==> IsIntType(types[i])
    ensures var sh := Shape([l0] + lits, IntSpecs(types));
            && SplitFormat(Join(sh.lits, sh.specs)) == sh
            && Aligned(sh)
  {
    var sh := Shape([l0] + lits, IntSpecs(types));
    forall i | 0 <= i < |sh.specs| ensures Lacks(sh.lits[i], '{') && Lacks(sh.specs[i], '}') {
      if i > 0 {
        assert sh.lits[i] == lits[i - 1];
      }
    }
    assert sh.lits[|sh.specs|] == lits[|lits| - 1];
    assert WellFormed(sh);
    SplitJoinRoundTrip(Join(sh.lits, sh.specs), sh);
    forall i | 1 <= i < |sh.specs| ensures sh.lits[i] != [] {
      assert sh.lits[i] == lits[i - 1];
    }
  }

  /** Tokenizing the rendered input with the format yields the format's
      specifiers and the spellings of the values. */
  lemma RoundTripSources(l0: string, vs: seq<int>, lits: seq<string>, types: seq<DestType>)
    requires |vs| == |lits| == |types| && PlainLiterals(l0, lits) && Separating(lits)
    requires forall i :: 0 <= i < |types| ==> IsIntType(types[i])
    ensures ParseSources(l0 + Render(vs, lits), Join([l0] + lits, IntSpecs(types)))
            == Ok(Sources(IntSpecs(types), Fields(vs)))
  {
    var sh := Shape([l0] + lits, IntSpecs(types));
    var input := l0 + Render(vs, lits);
    RoundTripShape(l0, lits, types);
    RenderAnchored(vs, lits);
    RoundTripInput(l0, Render(vs, lits));
    assert sh.lits[0] == l0 && sh.lits[1..] == lits;
    ParseSourcesOfShape(input, Join(sh.lits, sh.specs), sh, [], Fields(vs));
  }

  /** The first literal of the format starts the input, and the rendered
      values follow it. */
  lemma RoundTripInput(l0: string, rest: string)
    ensures FirstMatchAfter(l0 + rest, [], l0)
    ensures (l0 + rest)[|l0|..] == rest
  {
    var input := l0 + rest;
    assert input[..0] == [] && input[0..|l0|] == l0;
  }

  /** The values `vs` as converted integers. */
  function IntVals<F>(vs: seq<int>): (vals: seq<Value<F>>)
    ensures |vals| == |vs|
  {
    seq(|vs|, i requires 0 <= i < |vs| => IntVal(vs[i]))
  }

  /** Each spelled-out value converts back under its type's specifier. */
  lemma RoundTripConversions<F>(vs: seq<int>, types: seq<DestType>, fromChars: string -> FloatScan<F>)
    requires |vs| == |types|
    requires forall i :: 0 <= i < |types| ==> IsIntType(types[i]) && InRange(vs[i], types[i])
    ensures forall i :: 0 <= i < |vs| ==>
              ParseValueWithFormat(Fields(vs)[i], IntSpecs(types)[i], types[i], fromChars)
              == Ok(IntVals<F>(vs)[i])
  {
    forall i | 0 <= i < |vs|
      ensures ParseValueWithFormat(Fields(vs)[i], IntSpecs(types)[i], types[i], fromChars)
              == Ok(IntVals<F>(vs)[i])
    {
      ConvertField(Fields(vs)[i], IntSpecs(types)[i], vs[i], types[i], fromChars);
    }
  }

  /** One value spelled out converts back under its type's specifier. */
  lemma ConvertField<F>(f: string, spec: string, v: int, d: DestType, fromChars: string -> FloatScan<F>)
    requires IsIntType(d) && InRange(v, d)
    requires f == ShowInt(v) && spec == IntSpec(d)
    ensures ParseValueWithFormat(f, spec, d, fromChars) == Ok(IntVal(v))
  {
    NumeralUnpadded(f);
    TrimPadded([], f, []);
    assert [] + f + [] == f;
    ParseIntShowInt(v, d);
  }

  /** The round trip of a scan: values of integer types, written in decimal
      between separators that start with neither a digit nor a minus sign,
      scan back to exactly those values, in order, through the format with
      the same literal text and one `%d` or `%u` per value. */
  lemma ScanRoundTrip<F>(l0: string, vs: seq<int>, lits: seq<string>,
                         types: seq<DestType>, fromChars: string -> FloatScan<F>)
    requires |vs| == |lits| == |types| && PlainLiterals(l0, lits) && Separating(lits)
    requires forall i :: 0 <= i < |types| ==> IsIntType(types[i]) && InRange(vs[i], types[i])
    ensures Scan(l0 + Render(vs, lits), Join([l0] + lits, IntSpecs(types)), types, fromChars)
            == Ok(ScanResult(IntVals(vs)))
  {
    var input := l0 + Render(vs, lits);
    var format := Join([l0] + lits, IntSpecs(types));
    RoundTripSources(l0, vs, lits, types);
    RoundTripConversions(vs, types, fromChars);
    ScanAllConverted(input, format, types, fromChars, IntSpecs(types), Fields(vs), IntVals(vs));
  }
}
