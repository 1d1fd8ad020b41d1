/** The tokenizer (`parse_sources`): one left-to-right pass over the format
    that records each placeholder's specifier and, using the literal text
    between placeholders as anchors, carves the input into fields.

    The loop interleaves two searches: the brace scan over the format and the
    search for each literal in the input. The brace scan never fails and does
    not look at the input, so the model runs it first (`SplitFormat`, which
    follows the loop's `find('{')`/`find('}')` steps) and then cuts the input
    along the literals it produced (`Cut`), in the loop's order; every search
    in the input, and so every error, comes out as in the interleaved loop. */
module Tokenizer {
  import opened Types
  import opened Search
  import opened FormatShape

  /** The pair of vectors `parse_sources` returns: the specifier texts and
      the input fields. */
  datatype Sources = Sources(specs: seq<string>, fields: seq<string>)

  /** Puts one more specifier, and the fields `field` (none or one), in front
      of a successful result; an error passes through. */
  function Prepend(spec: string, field: seq<string>, r: Result<Sources>): Result<Sources>
  {
    match r
    case Err(e) => Err(e)
    case Ok(s) => Ok(Sources([spec] + s.specs, field + s.fields))
  }

  /** The step after the loop: a non-empty text after the last placeholder
      must be found in the remaining input, and what precedes its first
      occurrence is the last field; with no trailing text the whole remaining
      input is. */
  function Last(input: string, lit: string): (r: Result<Sources>)
    ensures r.Err? ==> r.error == ScanError(MsgUnformatted)
    ensures r.Ok? ==> r.value.specs == [] && |r.value.fields| == 1
    ensures r.Ok? ==> |r.value.fields[0]| <= |input| && r.value.fields[0] == input[..|r.value.fields[0]|]
    ensures r.Ok? && lit != [] ==> OccursAt(input, lit, |r.value.fields[0]|)
    ensures r.Ok? && lit != [] ==> forall j :: 0 <= j < |r.value.fields[0]| ==> !OccursAt(input, lit, j)
    ensures lit != [] ==> (r.Ok? <==> exists i :: OccursAt(input, lit, i))
    ensures lit == [] ==> r == Ok(Sources([], [input]))
  {
    FindSubLeast(input, lit);
    if lit == [] then Ok(Sources([], [input]))
    else
      match FindSub(input, lit)
      case None => Err(ScanError(MsgUnformatted))
      case Some(p) => Ok(Sources([], [input[..p]]))
  }

  /** The iterations of the loop over the placeholders whose specifiers are
      `specs`, `lits[i]` being the literal before placeholder `i` and the last
      literal the trailing text. A non-empty literal is searched for in the
      remaining input and the input advances past its first occurrence; the
      text skipped over becomes a field unless `notFirst` is false, which it
      is only before the format's first placeholder. */
  function Cut(input: string, lits: seq<string>, specs: seq<string>, notFirst: bool): (r: Result<Sources>)
    requires |lits| == |specs| + 1
    decreases |specs|
    ensures r.Err? ==> r.error == ScanError(MsgUnformatted)
    ensures r.Ok? ==> r.value.specs == specs
  {
    if specs == [] then Last(input, lits[0])
    else
      assert specs == [specs[0]] + specs[1..];
      if lits[0] == [] then Prepend(specs[0], [], Cut(input, lits[1..], specs[1..], true))
      else
        match FindSub(input, lits[0])
        case None => Err(ScanError(MsgUnformatted))
        case Some(p) =>
          Prepend(specs[0], if notFirst then [input[..p]] else [],
                  Cut(input[p + |lits[0]|..], lits[1..], specs[1..], true))
  }

  /** `parse_sources(input, format)`: its one error is the unformatted-text
      error, and on success the specifiers are the format's placeholders. */
  function ParseSources(input: string, format: string): (r: Result<Sources>)
    ensures r.Err? ==> r.error == ScanError(MsgUnformatted)
    ensures r.Ok? ==> r.value.specs == SplitFormat(format).specs
  {
    var sh := SplitFormat(format);
    Cut(input, sh.lits, sh.specs, false)
  }

  /** The loop's length test in front of each search adds nothing: a literal
      longer than the remaining input is never found in it. */
  lemma LengthGuardSubsumed(input: string, lit: string)
    requires |input| < |lit|
    ensures FindSub(input, lit).None?
  {
  }

  // ---------------------------------------------------------------------
  // Which specifiers are recorded, and how many fields

  /** The number of non-empty texts in `ts`. */
  function CountNonEmpty(ts: seq<string>): (n: nat)
    ensures n <= |ts|
    ensures n == |ts| <==> forall i :: 0 <= i < |ts| ==> ts[i] != []
  {
    if ts == [] then 0
    else
      var n := (if ts[0] != [] then 1 else 0) + CountNonEmpty(ts[1..]);
      assert forall i :: 1 <= i < |ts| ==> ts[i] == ts[1..][i - 1];
      n
  }

  /** The literals that separate consecutive placeholders. */
  function InnerLits(sh: Shape): seq<string>
    requires |sh.lits| == |sh.specs| + 1
  {
    if |sh.specs| == 0 then [] else sh.lits[1..|sh.specs|]
  }

  /** The number of fields the loop pushes for the placeholders of `sh`: one
      for each placeholder whose preceding literal is non-empty, except the
      first placeholder of the whole format. */
  function Pushes(sh: Shape, notFirst: bool): nat
    requires |sh.lits| == |sh.specs| + 1
  {
    if |sh.specs| == 0 then 0
    else CountNonEmpty(sh.lits[(if notFirst then 0 else 1)..|sh.specs|])
  }

  lemma PushesStep(lits: seq<string>, specs: seq<string>, notFirst: bool)
    requires |lits| == |specs| + 1 && |specs| > 0
    ensures Pushes(Shape(lits, specs), notFirst)
            == (if notFirst && lits[0] != [] then 1 else 0) + Pushes(Shape(lits[1..], specs[1..]), true)
  {
    var n := |specs|;
    assert lits[1..n] == lits[1..][0..n - 1];
    if notFirst {
      assert lits[0..n][1..] == lits[1..n];
    }
  }

  /** The cut records exactly the shape's specifiers, and pushes one field
      per counted literal plus the last one. */
  lemma {:induction false} CutCounts(input: string, lits: seq<string>, specs: seq<string>, notFirst: bool)
    requires |lits| == |specs| + 1
    requires Cut(input, lits, specs, notFirst).Ok?
    decreases |specs|
    ensures var s := Cut(input, lits, specs, notFirst).value;
            s.specs == specs && |s.fields| == Pushes(Shape(lits, specs), notFirst) + 1
  {
    if specs != [] {
      PushesStep(lits, specs, notFirst);
      assert specs == [specs[0]] + specs[1..];
      if lits[0] == [] {
        CutCounts(input, lits[1..], specs[1..], true);
      } else {
        var p := FindSub(input, lits[0]).value;
        CutCounts(input[p + |lits[0]|..], lits[1..], specs[1..], true);
      }
    }
  }

  /** The format has a placeholder and a non-empty literal between every two
      consecutive placeholders. */
  predicate Aligned(sh: Shape)
    requires |sh.lits| == |sh.specs| + 1
  {
    |sh.specs| >= 1 && forall i :: 1 <= i < |sh.specs| ==> sh.lits[i] != []
  }

  /** The specifier list is the format's placeholders, in order, whatever the
      input; the field list has one entry per non-empty separating literal
      plus one. So the two lengths agree exactly when there is at least one
      placeholder and no two placeholders are adjacent. */
  lemma ParseSourcesCounts(input: string, format: string)
    requires ParseSources(input, format).Ok?
    ensures var s := ParseSources(input, format).value;
            var sh := SplitFormat(format);
            && s.specs == sh.specs
            && |s.fields| == CountNonEmpty(InnerLits(sh)) + 1
            && (|s.specs| == |s.fields| <==> Aligned(sh))
  {
    var sh := SplitFormat(format);
    CutCounts(input, sh.lits, sh.specs, false);
    if |sh.specs| > 0 {
      assert forall i :: 1 <= i < |sh.specs| ==> sh.lits[i] == InnerLits(sh)[i - 1];
    }
  }

  // ---------------------------------------------------------------------
  // Which fields are carved out of the input

  /** `lit` occurs in `s` right after the prefix `field`, and nowhere before. */
  predicate FirstMatchAfter(s: string, field: string, lit: string)
  {
    && |field| <= |s| && s[..|field|] == field
    && OccursAt(s, lit, |field|)
    && forall j :: 0 <= j < |field| ==> !OccursAt(s, lit, j)
  }

  /** The prefix before a first match is exactly what the search delivers. */
  lemma FirstMatchFound(s: string, lit: string, p: nat, field: string)
    requires FindSub(s, lit) == Some(p)
    ensures FirstMatchAfter(s, field, lit) <==> field == s[..p]
  {
    FindSubLeast(s, lit);
    if FirstMatchAfter(s, field, lit) {
      FindSubIsFirst(s, lit, |field|);
    }
  }

  /** Without an occurrence there is no first match. */
  lemma FirstMatchMissing(s: string, lit: string, field: string)
    requires FindSub(s, lit).None?
    ensures !FirstMatchAfter(s, field, lit)
  {
    FindSubLeast(s, lit);
  }

  /** `fields` is how `rest` is cut by the literals `lits`: each literal but
      the last is non-empty and matched at its first occurrence after the
      previous match, the field before it being the text in between; a
      non-empty last literal is matched the same way, and an empty one leaves
      the whole remaining text to the last field. This is `Carved` for
      literals that are non-empty between placeholders (`AnchoredCarved`). */
  predicate Anchored(rest: string, lits: seq<string>, fields: seq<string>)
    decreases |lits|
  {
    && |lits| > 0 && |fields| == |lits|
    && if |lits| == 1 then
         if lits[0] == [] then fields[0] == rest else FirstMatchAfter(rest, fields[0], lits[0])
       else
         && lits[0] != []
         && FirstMatchAfter(rest, fields[0], lits[0])
         && Anchored(rest[|fields[0]| + |lits[0]|..], lits[1..], fields[1..])
  }

  /** An anchored cut with one more literal and field in front. */
  lemma AnchoredCons(rest: string, lit: string, lits: seq<string>, field: string, fs: seq<string>)
    requires |lits| > 0 && lit != [] && FirstMatchAfter(rest, field, lit)
    requires Anchored(rest[|field| + |lit|..], lits, fs)
    ensures Anchored(rest, [lit] + lits, [field] + fs)
  {
    assert ([lit] + lits)[1..] == lits;
    assert ([field] + fs)[1..] == fs;
  }

  /** A result with one more specifier and one more field in front. */
  lemma PrependField(spec: string, field: string, r: Result<Sources>,
                     specs: seq<string>, fs: seq<string>)
    ensures Prepend(spec, [field], r) == Ok(Sources([spec] + specs, fs))
            <==> |fs| > 0 && fs[0] == field && r == Ok(Sources(specs, fs[1..]))
  {
    if r.Ok? && |fs| > 0 {
      var s := r.value;
      if [spec] + s.specs == [spec] + specs && [field] + s.fields == fs {
        assert s.specs == ([spec] + s.specs)[1..];
        assert s.fields == ([field] + s.fields)[1..];
      }
      if fs[0] == field && s == Sources(specs, fs[1..]) {
        assert [field] + fs[1..] == fs;
      }
    }
  }

  /** A result with one more specifier in front and the same fields. */
  lemma PrependNoField(spec: string, r: Result<Sources>, specs: seq<string>, fs: seq<string>)
    ensures Prepend(spec, [], r) == Ok(Sources([spec] + specs, fs)) <==> r == Ok(Sources(specs, fs))
  {
    if r.Ok? {
      var s := r.value;
      if [spec] + s.specs == [spec] + specs {
        assert s.specs == ([spec] + s.specs)[1..];
      }
      assert [] + s.fields == s.fields;
    }
  }

  /** The cut's step over a placeholder whose literal is found at `p`. */
  lemma CutFoundStep(rest: string, lits: seq<string>, specs: seq<string>, p: nat)
    requires |lits| == |specs| + 1 && |specs| > 0 && lits[0] != []
    requires FindSub(rest, lits[0]) == Some(p)
    ensures Cut(rest, lits, specs, true)
            == Prepend(specs[0], [rest[..p]], Cut(rest[p + |lits[0]|..], lits[1..], specs[1..], true))
  {
  }

  /** An empty literal matches first at the very start, and only there. */
  lemma EmptyFirstMatch(input: string, lit: string, pre: string)
    requires lit == []
    ensures FirstMatchAfter(input, pre, lit) <==> pre == []
  {
    assert OccursAt(input, lit, 0);
  }

  /** The empty text occurs at the start of every text. */
  lemma EmptyOccurs(input: string, lit: string)
    ensures lit == [] ==> OccursAt(input, lit, 0)
  {
    if lit == [] {
      assert input[0..0] == lit;
    }
  }

  /** The first placeholder when the text before it does not occur. */
  lemma FirstCutMissing(input: string, lits: seq<string>, specs: seq<string>)
    requires |lits| == |specs| + 1 && |specs| >= 1 && lits[0] != []
    requires FindSub(input, lits[0]).None?
    ensures Cut(input, lits, specs, false) == Err(ScanError(MsgUnformatted))
  {
  }

  /** Which fields the tokenizer carves out, for a format with at least one
      placeholder and a non-empty literal between every two: when the text
      before the first placeholder first occurs right after `pre` (for an
      empty text, `pre` is empty), the input up to and including that
      occurrence is skipped, and the fields are exactly the anchored cut of
      the rest by the remaining literals. */
  lemma ParseSourcesAnchored(input: string, format: string, pre: string, fs: seq<string>)
    requires Aligned(SplitFormat(format))
    requires FirstMatchAfter(input, pre, SplitFormat(format).lits[0])
    ensures var sh := SplitFormat(format);
            ParseSources(input, format) == Ok(Sources(sh.specs, fs))
            <==> Anchored(input[|pre| + |sh.lits[0]|..], sh.lits[1..], fs)
  {
    var sh := SplitFormat(format);
    ParseSourcesCarved(input, format, pre, fs);
    assert forall i :: 0 <= i < |sh.lits[1..]| - 1 ==> sh.lits[1..][i] == sh.lits[i + 1];
    AnchoredCarved(input[|pre| + |sh.lits[0]|..], sh.lits[1..], fs);
  }

  /** The same, read as a way to establish the tokenizer's result from a
      known shape of the format. */
  lemma ParseSourcesOfShape(input: string, format: string, sh: Shape, pre: string, fs: seq<string>)
    requires SplitFormat(format) == sh && Aligned(sh)
    requires FirstMatchAfter(input, pre, sh.lits[0])
    requires Anchored(input[|pre| + |sh.lits[0]|..], sh.lits[1..], fs)
    ensures ParseSources(input, format) == Ok(Sources(sh.specs, fs))
  {
    ParseSourcesAnchored(input, format, pre, fs);
  }

  /** When the text before the first placeholder does not occur in the input,
      the tokenizer reports that the literal text differs. */
  lemma ParseSourcesUnanchored(input: string, format: string)
    requires |SplitFormat(format).specs| >= 1
    requires forall i :: !OccursAt(input, SplitFormat(format).lits[0], i)
    ensures ParseSources(input, format) == Err(ScanError(MsgUnformatted))
  {
    var sh := SplitFormat(format);
    FindSubLeast(input, sh.lits[0]);
    EmptyOccurs(input, sh.lits[0]);
    FirstCutMissing(input, sh.lits, sh.specs);
  }

  // ---------------------------------------------------------------------
  // When tokenizing succeeds, for any format

  /** `fields` is how `rest` is cut by the literals `lits`, where literals
      between placeholders may be empty: an empty literal before a
      placeholder matches where the input stands and records no field; a
      non-empty one is matched at its first occurrence, the text skipped
      over being the next field; the trailing literal is matched the same
      way, and an empty one leaves the whole remaining text to the last
      field. */
  predicate Carved(rest: string, lits: seq<string>, fields: seq<string>)
    decreases |lits|
  {
    && |lits| > 0
    && if |lits| == 1 then
         if lits[0] == [] then fields == [rest]
         else |fields| == 1 && FirstMatchAfter(rest, fields[0], lits[0])
       else if lits[0] == [] then Carved(rest, lits[1..], fields)
       else
         && |fields| > 0
         && FirstMatchAfter(rest, fields[0], lits[0])
         && Carved(rest[|fields[0]| + |lits[0]|..], lits[1..], fields[1..])
  }

  /** The last field is the carved cut by the trailing literal. */
  lemma LastCarved(rest: string, lit: string, fs: seq<string>)
    ensures Last(rest, lit) == Ok(Sources([], fs)) <==> Carved(rest, [lit], fs)
  {
    if |fs| == 1 {
      assert fs == [fs[0]];
      if lit != [] {
        match FindSub(rest, lit)
        case None => FirstMatchMissing(rest, lit, fs[0]);
        case Some(p) => FirstMatchFound(rest, lit, p, fs[0]);
      }
    }
  }

  /** The carved cut's step over a literal found at `p`. */
  lemma CarvedFoundStep(rest: string, lits: seq<string>, fs: seq<string>, p: nat)
    requires |lits| > 1 && lits[0] != []
    requires FindSub(rest, lits[0]) == Some(p)
    ensures p + |lits[0]| <= |rest|
    ensures Carved(rest, lits, fs)
            <==> |fs| > 0 && fs[0] == rest[..p] && Carved(rest[p + |lits[0]|..], lits[1..], fs[1..])
  {
    if |fs| > 0 {
      FirstMatchFound(rest, lits[0], p, fs[0]);
      if fs[0] == rest[..p] {
        assert rest[|fs[0]| + |lits[0]|..] == rest[p + |lits[0]|..];
      }
    }
  }

  /** One placeholder whose non-empty literal is found at `p`. */
  lemma CutCarvedFound(rest: string, lits: seq<string>, specs: seq<string>, fs: seq<string>, p: nat)
    requires |lits| == |specs| + 1 && |specs| > 0 && lits[0] != []
    requires FindSub(rest, lits[0]) == Some(p)
    requires |fs| > 0 ==>
               (Cut(rest[p + |lits[0]|..], lits[1..], specs[1..], true) == Ok(Sources(specs[1..], fs[1..]))
                <==> Carved(rest[p + |lits[0]|..], lits[1..], fs[1..]))
    ensures Cut(rest, lits, specs, true) == Ok(Sources(specs, fs)) <==> Carved(rest, lits, fs)
  {
    var r := Cut(rest[p + |lits[0]|..], lits[1..], specs[1..], true);
    assert specs == [specs[0]] + specs[1..];
    CutFoundStep(rest, lits, specs, p);
    PrependField(specs[0], rest[..p], r, specs[1..], fs);
    CarvedFoundStep(rest, lits, fs, p);
  }

  /** One placeholder with an empty literal before it. */
  lemma CutCarvedEmpty(rest: string, lits: seq<string>, specs: seq<string>, fs: seq<string>)
    requires |lits| == |specs| + 1 && |specs| > 0 && lits[0] == []
    requires Cut(rest, lits[1..], specs[1..], true) == Ok(Sources(specs[1..], fs))
             <==> Carved(rest, lits[1..], fs)
    ensures Cut(rest, lits, specs, true) == Ok(Sources(specs, fs)) <==> Carved(rest, lits, fs)
  {
    assert specs == [specs[0]] + specs[1..];
    PrependNoField(specs[0], Cut(rest, lits[1..], specs[1..], true), specs[1..], fs);
  }

  /** One placeholder whose non-empty literal is not found. */
  lemma CutCarvedMissing(rest: string, lits: seq<string>, specs: seq<string>, fs: seq<string>)
    requires |lits| == |specs| + 1 && |specs| > 0 && lits[0] != []
    requires FindSub(rest, lits[0]).None?
    ensures !Carved(rest, lits, fs)
  {
    if |fs| > 0 {
      FirstMatchMissing(rest, lits[0], fs[0]);
    }
  }

  /** Past the first placeholder, the cut succeeds with fields `fs` exactly
      when `fs` is the carved cut of the input, whatever the literals. */
  lemma {:induction false} CutCarved(rest: string, lits: seq<string>, specs: seq<string>, fs: seq<string>)
    requires |lits| == |specs| + 1
    decreases |specs|
    ensures Cut(rest, lits, specs, true) == Ok(Sources(specs, fs)) <==> Carved(rest, lits, fs)
  {
    if specs == [] {
      assert lits == [lits[0]];
      LastCarved(rest, lits[0], fs);
    } else if lits[0] == [] {
      CutCarved(rest, lits[1..], specs[1..], fs);
      CutCarvedEmpty(rest, lits, specs, fs);
    } else {
      match FindSub(rest, lits[0])
      case None =>
        CutCarvedMissing(rest, lits, specs, fs);
      case Some(p) =>
        if |fs| > 0 {
          CutCarved(rest[p + |lits[0]|..], lits[1..], specs[1..], fs[1..]);
        }
        CutCarvedFound(rest, lits, specs, fs, p);
    }
  }

  /** The first placeholder when the format starts with it. */
  lemma FirstCarvedEmpty(input: string, lits: seq<string>, specs: seq<string>, fs: seq<string>, pre: string)
    requires |lits| == |specs| + 1 && |specs| >= 1 && lits[0] == []
    requires FirstMatchAfter(input, pre, lits[0])
    ensures Cut(input, lits, specs, false) == Ok(Sources(specs, fs))
            <==> Carved(input[|pre| + |lits[0]|..], lits[1..], fs)
  {
    EmptyFirstMatch(input, lits[0], pre);
    assert input[|pre| + |lits[0]|..] == input;
    var rlits, rspecs := lits[1..], specs[1..];
    assert specs == [specs[0]] + rspecs;
    CutCarved(input, rlits, rspecs, fs);
    PrependNoField(specs[0], Cut(input, rlits, rspecs, true), rspecs, fs);
  }

  /** The first placeholder when the text before it first occurs after `pre`. */
  lemma FirstCarvedFound(input: string, lits: seq<string>, specs: seq<string>, fs: seq<string>, pre: string)
    requires |lits| == |specs| + 1 && |specs| >= 1 && lits[0] != []
    requires FirstMatchAfter(input, pre, lits[0])
    ensures Cut(input, lits, specs, false) == Ok(Sources(specs, fs))
            <==> Carved(input[|pre| + |lits[0]|..], lits[1..], fs)
  {
    var lit, rlits, rspecs := lits[0], lits[1..], specs[1..];
    var p := |pre|;
    FindSubIsFirst(input, lit, p);
    var rest := input[p + |lit|..];
    var r := Cut(rest, rlits, rspecs, true);
    assert specs == [specs[0]] + rspecs;
    assert Cut(input, lits, specs, false) == Prepend(specs[0], [], r);
    CutCarved(rest, rlits, rspecs, fs);
    PrependNoField(specs[0], r, rspecs, fs);
  }

  /** Which fields the tokenizer carves out, for any format with a
      placeholder: when the text before the first placeholder first occurs
      right after `pre`, the tokenizer returns the format's specifiers with
      the fields `fs` exactly when `fs` is the carved cut of the rest of the
      input. (When that text does not occur, `ParseSourcesUnanchored` gives
      the error.) */
  lemma ParseSourcesCarved(input: string, format: string, pre: string, fs: seq<string>)
    requires |SplitFormat(format).specs| >= 1
    requires FirstMatchAfter(input, pre, SplitFormat(format).lits[0])
    ensures var sh := SplitFormat(format);
            ParseSources(input, format) == Ok(Sources(sh.specs, fs))
            <==> Carved(input[|pre| + |sh.lits[0]|..], sh.lits[1..], fs)
  {
    var sh := SplitFormat(format);
    if sh.lits[0] == [] {
      FirstCarvedEmpty(input, sh.lits, sh.specs, fs, pre);
    } else {
      FirstCarvedFound(input, sh.lits, sh.specs, fs, pre);
    }
  }

  /** A format without a placeholder: the whole format is the trailing
      literal, and the one field is the text before its first occurrence. */
  lemma ParseSourcesNoPlaceholder(input: string, format: string, fs: seq<string>)
    requires SplitFormat(format).specs == []
    ensures ParseSources(input, format) == Ok(Sources([], fs)) <==> Carved(input, [format], fs)
  {
    var sh := SplitFormat(format);
    SplitJoinRoundTrip(format, sh);
    assert sh.lits == [format];
    LastCarved(input, format, fs);
  }

  /** With every literal before a placeholder non-empty, the anchored cut
      and the carved cut are the same relation. */
  lemma {:induction false} AnchoredCarved(rest: string, lits: seq<string>, fs: seq<string>)
    requires forall i :: 0 <= i < |lits| - 1 ==> lits[i] != []
    decreases |lits|
    ensures Anchored(rest, lits, fs) <==> Carved(rest, lits, fs)
  {
    if |lits| > 1 && |fs| > 0 && FirstMatchAfter(rest, fs[0], lits[0]) {
      assert forall i :: 0 <= i < |lits[1..]| - 1 ==> lits[1..][i] == lits[i + 1];
      AnchoredCarved(rest[|fs[0]| + |lits[0]|..], lits[1..], fs[1..]);
    }
  }
}
