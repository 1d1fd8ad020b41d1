/** The entry point `scan<Ts...>(input, format)`: tokenize, check that the two
    part lists agree, drop the placeholders with an empty specifier, check the
    count against the destination types, convert every field, and report the
    first failed conversion or the tuple of values.

    The destination type pack is a runtime sequence of `DestType`s; the
    tuple of converted values is a sequence of `Value`s, one per type. */
module Scanner {
  import opened Types
  import opened Search
  import opened Numeric
  import opened Convert
  import opened FormatShape
  import opened Tokenizer

  // ---------------------------------------------------------------------
  // The empty-specifier filter

  /** The indices `j >= from` with a non-empty specifier, in increasing order. */
  function KeptIndices(specs: seq<string>, from: nat): (ks: seq<nat>)
    decreases |specs| - from
    ensures forall t :: 0 <= t < |ks| ==> from <= ks[t] < |specs| && |specs[ks[t]]| > 0
  {
    if from >= |specs| then []
    else (if |specs[from]| > 0 then [from] else []) + KeptIndices(specs, from + 1)
  }

  /** Each index in `ks` is larger than those before it. */
  predicate Increasing(ks: seq<nat>)
  {
    forall t, u :: 0 <= t < u < |ks| ==> ks[t] < ks[u]
  }

  /** `KeptIndices` lists the indices in increasing order, so each at most
      once. */
  lemma {:induction false} KeptIndicesIncreasing(specs: seq<string>, from: nat)
    decreases |specs| - from
    ensures Increasing(KeptIndices(specs, from))
  {
    if from < |specs| {
      KeptIndicesIncreasing(specs, from + 1);
      var ks := KeptIndices(specs, from + 1);
      if |specs[from]| > 0 {
        assert KeptIndices(specs, from) == [from] + ks;
        IncreasingCons(from, ks);
      } else {
        assert KeptIndices(specs, from) == ks;
      }
    }
  }

  lemma IncreasingCons(k: nat, ks: seq<nat>)
    requires Increasing(ks)
    requires forall t :: 0 <= t < |ks| ==> k < ks[t]
    ensures Increasing([k] + ks)
  {
    var ks' := [k] + ks;
    forall t, u | 0 <= t < u < |ks'| ensures ks'[t] < ks'[u] {
      assert ks'[u] == ks[u - 1];
      if t > 0 {
        assert ks'[t] == ks[t - 1];
      }
    }
  }

  /** `KeptIndices` misses no index with a non-empty specifier. */
  lemma {:induction false} KeptIndicesComplete(specs: seq<string>, from: nat)
    decreases |specs| - from
    ensures forall j :: from <= j < |specs| && |specs[j]| > 0 ==> j in KeptIndices(specs, from)
  {
    if from < |specs| {
      KeptIndicesComplete(specs, from + 1);
      var ks := KeptIndices(specs, from + 1);
      if |specs[from]| > 0 {
        assert KeptIndices(specs, from) == [from] + ks;
      } else {
        assert KeptIndices(specs, from) == ks;
      }
    }
  }

  /** With no empty specifier from `from` on, every index is kept. */
  lemma {:induction false} KeptIndicesAll(specs: seq<string>, from: nat)
    requires from <= |specs|
    requires forall j :: from <= j < |specs| ==> |specs[j]| > 0
    decreases |specs| - from
    ensures var ks := KeptIndices(specs, from);
            |ks| == |specs| - from && forall t :: 0 <= t < |ks| ==> ks[t] == from + t
  {
    if from < |specs| {
      KeptIndicesAll(specs, from + 1);
      var ks := KeptIndices(specs, from + 1);
      assert KeptIndices(specs, from) == [from] + ks;
    }
  }

  /** The elements of `xs` at the positions `ks`. */
  function Gather<T>(xs: seq<T>, ks: seq<nat>): (r: seq<T>)
    requires forall t :: 0 <= t < |ks| ==> ks[t] < |xs|
    ensures |r| == |ks|
  {
    seq(|ks|, t requires 0 <= t < |ks| => xs[ks[t]])
  }

  /** The loop that copies the parts whose specifier is not empty, from
      index `from` on: specifier and field go together. */
  function DropEmpty(specs: seq<string>, fields: seq<string>, from: nat): (r: (seq<string>, seq<string>))
    requires |specs| == |fields|
    decreases |specs| - from
    ensures |r.0| == |r.1|
    ensures forall t :: 0 <= t < |r.0| ==> |r.0[t]| > 0
  {
    if from >= |specs| then ([], [])
    else
      var rest := DropEmpty(specs, fields, from + 1);
      if |specs[from]| == 0 then rest
      else ([specs[from]] + rest.0, [fields[from]] + rest.1)
  }

  /** The filter keeps exactly the parts with a non-empty specifier, in their
      original order, each field still beside its own specifier. */
  lemma {:induction false} DropEmptyKept(specs: seq<string>, fields: seq<string>, from: nat)
    requires |specs| == |fields|
    decreases |specs| - from
    ensures var ks := KeptIndices(specs, from);
            DropEmpty(specs, fields, from) == (Gather(specs, ks), Gather(fields, ks))
  {
    if from < |specs| {
      DropEmptyKept(specs, fields, from + 1);
      var ks := KeptIndices(specs, from + 1);
      if |specs[from]| > 0 {
        assert KeptIndices(specs, from) == [from] + ks;
        DropEmptyKeptStep(specs, fields, from, ks);
      } else {
        assert KeptIndices(specs, from) == ks;
      }
    }
  }

  /** A kept part goes in front of the parts kept after it. */
  lemma DropEmptyKeptStep(specs: seq<string>, fields: seq<string>, from: nat, ks: seq<nat>)
    requires |specs| == |fields| && from < |specs| && |specs[from]| > 0
    requires forall t :: 0 <= t < |ks| ==> ks[t] < |specs|
    requires DropEmpty(specs, fields, from + 1) == (Gather(specs, ks), Gather(fields, ks))
    ensures DropEmpty(specs, fields, from) == (Gather(specs, [from] + ks), Gather(fields, [from] + ks))
  {
    GatherCons(specs, from, ks);
    GatherCons(fields, from, ks);
  }

  lemma GatherCons<T>(xs: seq<T>, k: nat, ks: seq<nat>)
    requires k < |xs| && forall t :: 0 <= t < |ks| ==> ks[t] < |xs|
    ensures Gather(xs, [k] + ks) == [xs[k]] + Gather(xs, ks)
  {
    var ks' := [k] + ks;
    assert forall t :: 0 < t < |ks'| ==> ks'[t] == ks[t - 1];
  }

  /** The filter keeps as many parts as there are non-empty specifiers. */
  lemma {:induction false} DropEmptyCount(specs: seq<string>, fields: seq<string>, from: nat)
    requires |specs| == |fields| && from <= |specs|
    decreases |specs| - from
    ensures |DropEmpty(specs, fields, from).0| == CountNonEmpty(specs[from..])
  {
    if from < |specs| {
      DropEmptyCount(specs, fields, from + 1);
      assert specs[from..][1..] == specs[from + 1..];
    }
  }

  // ---------------------------------------------------------------------
  // Conversion of all fields and the first failure

  /** `parse_all_to_tuple`: field `i` converted with specifier `i` into type `i`. */
  function ConvertAll<F>(ins: seq<string>, fmts: seq<string>, types: seq<DestType>,
                         fromChars: string -> FloatScan<F>): (rs: seq<Result<Value<F>>>)
    requires |ins| == |types| && |fmts| == |types|
    ensures |rs| == |types|
    ensures forall i :: 0 <= i < |rs| && rs[i].Ok? ==> HasType(rs[i].value, types[i])
  {
    seq(|types|, i requires 0 <= i < |types| => ParseValueWithFormat(ins[i], fmts[i], types[i], fromChars))
  }

  /** The position the fold over the conversions records: the first failed
      conversion at or after `from`, or `|rs|` (the pack size) when all of
      them succeed. */
  function FirstErrorIndex<T>(rs: seq<Result<T>>, from: nat): (k: nat)
    requires from <= |rs|
    decreases |rs| - from
    ensures from <= k <= |rs|
    ensures forall j :: from <= j < k ==> rs[j].Ok?
    ensures k < |rs| ==> rs[k].Err?
  {
    if from == |rs| then |rs|
    else if rs[from].Err? then from
    else FirstErrorIndex(rs, from + 1)
  }

  /** The values of conversions that all succeeded. */
  function Values<T>(rs: seq<Result<T>>): (vs: seq<T>)
    requires forall i :: 0 <= i < |rs| ==> rs[i].Ok?
    ensures |vs| == |rs|
  {
    seq(|rs|, i requires 0 <= i < |rs| => rs[i].value)
  }

  // ---------------------------------------------------------------------
  // The scan

  /** `scan<Ts...>(input, format)` with the destination types `types`. */
  function Scan<F>(input: string, format: string, types: seq<DestType>,
                   fromChars: string -> FloatScan<F>): (r: Result<ScanResult<F>>)
    ensures r.Ok? ==> ParseSources(input, format).Ok?
    ensures r.Ok? ==> |r.value.values| == |types|
    ensures r.Ok? ==> forall i :: 0 <= i < |types| ==> HasType(r.value.values[i], types[i])
  {
    match ParseSources(input, format)
    case Err(e) => Err(e)
    case Ok(src) =>
      if |src.specs| != |src.fields| then Err(ScanError(MsgPartsMismatch))
      else
        var parts := DropEmpty(src.specs, src.fields, 0);
        if |parts.0| != |types| || |parts.1| != |types| then Err(ScanError(MsgArity))
        else
          var rs := ConvertAll(parts.1, parts.0, types, fromChars);
          var k := FirstErrorIndex(rs, 0);
          if k < |rs| then Err(rs[k].error)
          else
            assert forall i :: 0 <= i < |rs| ==> HasType(rs[i].value, types[i]);
            Ok(ScanResult(Values(rs)))
  }

  /** A tokenizer error is the scan's error, unchanged: the unformatted-text
      error. */
  lemma ScanTokenizerError<F>(input: string, format: string, types: seq<DestType>,
                              fromChars: string -> FloatScan<F>)
    requires ParseSources(input, format).Err?
    ensures Scan(input, format, types, fromChars) == Err(ParseSources(input, format).error)
    ensures Scan(input, format, types, fromChars) == Err(ScanError(MsgUnformatted))
  {
  }

  /** When tokenizing succeeds, the two part lists disagree in length exactly
      when the format has no placeholder or two adjacent placeholders, and
      the scan then reports the parsing error. */
  lemma ScanMisaligned<F>(input: string, format: string, types: seq<DestType>,
                          fromChars: string -> FloatScan<F>)
    requires ParseSources(input, format).Ok?
    requires !Aligned(SplitFormat(format))
    ensures Scan(input, format, types, fromChars) == Err(ScanError(MsgPartsMismatch))
  {
    ParseSourcesCounts(input, format);
  }

  /** With the parts aligned, a number of non-empty specifiers different
      from the number of destination types is an arity error. */
  lemma ScanArity<F>(input: string, format: string, types: seq<DestType>,
                     fromChars: string -> FloatScan<F>)
    requires ParseSources(input, format).Ok?
    requires Aligned(SplitFormat(format))
    requires CountNonEmpty(SplitFormat(format).specs) != |types|
    ensures Scan(input, format, types, fromChars) == Err(ScanError(MsgArity))
  {
    var src := ParseSources(input, format).value;
    ParseSourcesCounts(input, format);
    DropEmptyCount(src.specs, src.fields, 0);
    assert src.specs[0..] == src.specs;
  }

  /** The conversions the scan runs once every check before them passed:
      the fields with a non-empty specifier, in order, each with its own
      specifier and its own destination type. */
  ghost predicate Converts<F>(input: string, format: string, types: seq<DestType>,
                        fromChars: string -> FloatScan<F>, rs: seq<Result<Value<F>>>)
  {
    && ParseSources(input, format).Ok?
    && var src := ParseSources(input, format).value;
       && |src.specs| == |src.fields|
       && var ks := KeptIndices(src.specs, 0);
          && |ks| == |types| == |rs|
          && forall i :: 0 <= i < |ks| ==>
               rs[i] == ParseValueWithFormat(src.fields[ks[i]], src.specs[ks[i]], types[i], fromChars)
  }

  /** Once the checks pass, the scan's outcome is decided by the conversions:
      it succeeds exactly when every conversion does, with value `i` the
      result of conversion `i`; otherwise it reports the error of the
      lowest-numbered failed conversion. */
  lemma ScanConversions<F>(input: string, format: string, types: seq<DestType>,
                           fromChars: string -> FloatScan<F>, rs: seq<Result<Value<F>>>)
    requires Converts(input, format, types, fromChars, rs)
    ensures var r := Scan(input, format, types, fromChars);
            && (r.Ok? <==> forall i :: 0 <= i < |rs| ==> rs[i].Ok?)
            && (r.Ok? ==> forall i :: 0 <= i < |rs| ==> r.value.values[i] == rs[i].value)
            && (r.Err? ==> exists k :: 0 <= k < |rs| && rs[k].Err? && r.error == rs[k].error
                                       && forall j :: 0 <= j < k ==> rs[j].Ok?)
  {
    var src := ParseSources(input, format).value;
    var ks := KeptIndices(src.specs, 0);
    DropEmptyKept(src.specs, src.fields, 0);
    var parts := DropEmpty(src.specs, src.fields, 0);
    assert ConvertAll(parts.1, parts.0, types, fromChars) == rs;
    var k := FirstErrorIndex(rs, 0);
    if k < |rs| {
      assert Scan(input, format, types, fromChars) == Err(rs[k].error);
    }
  }

  /** The success case: when tokenizing yields as many fields as specifiers,
      none of them empty, one per destination type, and every field
      converts, the scan returns the converted values in order. */
  lemma ScanAllConverted<F>(input: string, format: string, types: seq<DestType>,
                            fromChars: string -> FloatScan<F>,
                            specs: seq<string>, fs: seq<string>, vals: seq<Value<F>>)
    requires ParseSources(input, format) == Ok(Sources(specs, fs))
    requires |specs| == |fs| == |types| == |vals|
    requires forall i :: 0 <= i < |specs| ==> |specs[i]| > 0
    requires forall i :: 0 <= i < |types| ==>
               ParseValueWithFormat(fs[i], specs[i], types[i], fromChars) == Ok(vals[i])
    ensures Scan(input, format, types, fromChars) == Ok(ScanResult(vals))
  {
    var rs: seq<Result<Value<F>>> := seq(|vals|, i requires 0 <= i < |vals| => Ok(vals[i]));
    AllConvertedConverts(input, format, types, fromChars, specs, fs, vals, rs);
    ScanConversions(input, format, types, fromChars, rs);
    var r := Scan(input, format, types, fromChars);
    assert r.value.values == vals;
  }

  /** With nothing filtered out, the scan's conversions are those of the
      fields against the specifiers, one by one. */
  lemma AllConvertedConverts<F>(input: string, format: string, types: seq<DestType>,
                                fromChars: string -> FloatScan<F>,
                                specs: seq<string>, fs: seq<string>, vals: seq<Value<F>>,
                                rs: seq<Result<Value<F>>>)
    requires ParseSources(input, format) == Ok(Sources(specs, fs))
    requires |specs| == |fs| == |types| == |vals| == |rs|
    requires forall i :: 0 <= i < |specs| ==> |specs[i]| > 0
    requires forall i :: 0 <= i < |types| ==>
               ParseValueWithFormat(fs[i], specs[i], types[i], fromChars) == Ok(vals[i]) == rs[i]
    ensures Converts(input, format, types, fromChars, rs)
  {
    KeptIndicesAll(specs, 0);
  }

  /** A format without a placeholder never scans: either its text is not
      found in the input, or it is and the one field left over has no
      specifier to pair with. */
  lemma ScanWithoutPlaceholder<F>(input: string, format: string, types: seq<DestType>,
                                  fromChars: string -> FloatScan<F>)
    requires SplitFormat(format).specs == []
    ensures Scan(input, format, types, fromChars)
            == Err(ScanError(if exists i :: OccursAt(input, format, i) then MsgPartsMismatch
                             else MsgUnformatted))
  {
    var sh := SplitFormat(format);
    SplitJoinRoundTrip(format, sh);
    assert sh.lits[0] == format;
    FindSubLeast(input, format);
    EmptyOccurs(input, format);
  }
}
