/** How a format string decomposes into literal text and `{...}` placeholders,
    as the tokenizer's scan of the format sees it.

    A placeholder is a `{` together with the first `}` after it; the specifier
    is the text strictly between them (it may itself contain `{`). Scanning
    stops at the first `{` that has no `}` after it, so that brace and all
    that follows belong to the trailing literal. */
module FormatShape {
  import opened Types
  import opened Search

  /** `lits[0]` is the text before the first placeholder, `lits[i]` the text
      between placeholders `i-1` and `i`, and `lits[|specs|]` the trailing
      text; `specs[i]` is the specifier of placeholder `i`. */
  datatype Shape = Shape(lits: seq<string>, specs: seq<string>)

  /** The shape of `format[start..]`. */
  function SplitFrom(format: string, start: nat): (sh: Shape)
    requires start <= |format|
    decreases |format| - start
    ensures |sh.lits| == |sh.specs| + 1
  {
    match FindChar(format, '{', start)
    case None => Shape([format[start..]], [])
    case Some(open) =>
      match FindChar(format, '}', open)
      case None => Shape([format[start..]], [])
      case Some(close) =>
        var rest := SplitFrom(format, close + 1);
        Shape([format[start..open]] + rest.lits, [format[open + 1..close]] + rest.specs)
  }

  /** The shape of a whole format string. */
  function SplitFormat(format: string): (sh: Shape)
    ensures |sh.lits| == |sh.specs| + 1
  {
    SplitFrom(format, 0)
  }

  /** Writes a shape back out as a format string. */
  function Join(lits: seq<string>, specs: seq<string>): string
    requires |lits| == |specs| + 1
  {
    if specs == [] then lits[0]
    else lits[0] + "{" + specs[0] + "}" + Join(lits[1..], specs[1..])
  }

  /** `t` does not contain `c`. */
  predicate Lacks(t: string, c: char)
  {
    forall k :: 0 <= k < |t| ==> t[k] != c
  }

  /** `t[i]` is a `{` and `t[j]`, further on, a `}`. */
  predicate BracePair(t: string, i: nat, j: nat)
  {
    i < j < |t| && t[i] == '{' && t[j] == '}'
  }

  /** No `{` in `t` has a `}` after it. */
  predicate NoPlaceholder(t: string)
  {
    forall i: nat, j: nat :: i < j < |t| ==> !BracePair(t, i, j)
  }

  /** The shapes the scan can produce: a literal before a placeholder has no
      `{`, a specifier has no `}`, and the trailing literal holds no
      placeholder. */
  predicate WellFormed(sh: Shape)
  {
    && |sh.lits| == |sh.specs| + 1
    && (forall i :: 0 <= i < |sh.specs| ==> Lacks(sh.lits[i], '{') && Lacks(sh.specs[i], '}'))
    && NoPlaceholder(sh.lits[|sh.specs|])
  }

  lemma LacksSlice(s: string, c: char, lo: nat, hi: nat)
    requires lo <= hi <= |s|
    requires forall j :: lo <= j < hi ==> s[j] != c
    ensures Lacks(s[lo..hi], c)
  {
    forall k | 0 <= k < hi - lo ensures s[lo..hi][k] != c {
      assert s[lo..hi][k] == s[lo + k];
    }
  }

  /** A shape with one more placeholder in front is well-formed when its
      parts are. */
  lemma WellFormedCons(l: string, sp: string, tail: Shape)
    requires Lacks(l, '{') && Lacks(sp, '}') && WellFormed(tail)
    ensures WellFormed(Shape([l] + tail.lits, [sp] + tail.specs))
  {
    var sh := Shape([l] + tail.lits, [sp] + tail.specs);
    forall i | 0 <= i < |sh.specs| ensures Lacks(sh.lits[i], '{') && Lacks(sh.specs[i], '}') {
      if i > 0 {
        assert sh.lits[i] == tail.lits[i - 1] && sh.specs[i] == tail.specs[i - 1];
      }
    }
    assert sh.lits[|sh.specs|] == tail.lits[|tail.specs|];
  }

  /** The tail of a well-formed shape with a placeholder is well-formed. */
  lemma WellFormedTail(sh: Shape)
    requires WellFormed(sh) && |sh.specs| > 0
    ensures WellFormed(Shape(sh.lits[1..], sh.specs[1..]))
  {
    var tail := Shape(sh.lits[1..], sh.specs[1..]);
    forall i | 0 <= i < |tail.specs| ensures Lacks(tail.lits[i], '{') && Lacks(tail.specs[i], '}') {
      assert tail.lits[i] == sh.lits[i + 1] && tail.specs[i] == sh.specs[i + 1];
    }
  }

  /** When the scan finds no placeholder in `format[start..]`, that text holds
      none. */
  lemma NoPlaceholderWhenUnmatched(format: string, start: nat)
    requires start <= |format|
    requires FindChar(format, '{', start).None?
             || FindChar(format, '}', FindChar(format, '{', start).value).None?
    ensures NoPlaceholder(format[start..])
  {
    var t := format[start..];
    FindCharLeast(format, '{', start);
    if FindChar(format, '{', start).Some? {
      FindCharLeast(format, '}', FindChar(format, '{', start).value);
    }
    forall i: nat, j: nat ensures !BracePair(t, i, j) {
      if i < j < |t| && t[i] == '{' {
        assert format[start + i] == '{';
        assert format[start + j] == t[j];
      }
    }
  }

  /** Splitting produces a well-formed shape. */
  lemma {:induction false} SplitFromWellFormed(format: string, start: nat)
    requires start <= |format|
    decreases |format| - start
    ensures WellFormed(SplitFrom(format, start))
  {
    match FindChar(format, '{', start)
    case None =>
      NoPlaceholderWhenUnmatched(format, start);
    case Some(open) =>
      match FindChar(format, '}', open)
      case None =>
        NoPlaceholderWhenUnmatched(format, start);
      case Some(close) =>
        SplitFromWellFormed(format, close + 1);
        FindCharLeast(format, '{', start);
        FindCharLeast(format, '}', open);
        LacksSlice(format, '{', start, open);
        LacksSlice(format, '}', open + 1, close);
        WellFormedCons(format[start..open], format[open + 1..close], SplitFrom(format, close + 1));
  }

  /** Splitting and joining gives back the format text. */
  lemma {:induction false} SplitFromJoin(format: string, start: nat)
    requires start <= |format|
    decreases |format| - start
    ensures Join(SplitFrom(format, start).lits, SplitFrom(format, start).specs) == format[start..]
  {
    match FindChar(format, '{', start)
    case None =>
    case Some(open) =>
      match FindChar(format, '}', open)
      case None =>
      case Some(close) =>
        SplitFromJoin(format, close + 1);
        JoinStep(format, start, open, close);
  }

  /** Joining one placeholder in front of the rest's shape. */
  lemma JoinStep(format: string, start: nat, open: nat, close: nat)
    requires start <= open < close < |format|
    requires FindChar(format, '{', start) == Some(open)
    requires FindChar(format, '}', open) == Some(close)
    requires Join(SplitFrom(format, close + 1).lits, SplitFrom(format, close + 1).specs)
             == format[close + 1..]
    ensures Join(SplitFrom(format, start).lits, SplitFrom(format, start).specs) == format[start..]
  {
    var l, sp := format[start..open], format[open + 1..close];
    var rest := SplitFrom(format, close + 1);
    SplitFromStep(format, start, open, close);
    JoinCons(l, sp, rest);
    BracedSlices(format, start, open, close);
  }

  lemma JoinCons(l: string, sp: string, tail: Shape)
    requires |tail.lits| == |tail.specs| + 1
    ensures Join([l] + tail.lits, [sp] + tail.specs)
            == l + "{" + sp + "}" + Join(tail.lits, tail.specs)
  {
    assert ([l] + tail.lits)[1..] == tail.lits;
    assert ([sp] + tail.specs)[1..] == tail.specs;
  }

  /** Cutting `format[start..]` around the braces at `open` and `close`. */
  lemma BracedSlices(format: string, start: nat, open: nat, close: nat)
    requires start <= open < close < |format|
    requires format[open] == '{' && format[close] == '}'
    ensures format[start..] == format[start..open] + "{" + format[open + 1..close] + "}"
                               + format[close + 1..]
  {
    assert format[start..] == format[start..open] + format[open..];
    assert format[open..] == [format[open]] + format[open + 1..];
    assert format[open + 1..] == format[open + 1..close] + format[close..];
    assert format[close..] == [format[close]] + format[close + 1..];
  }

  /** Joining a well-formed shape and splitting the result gives the shape
      back, wherever the joined text starts in the format. */
  lemma {:induction false} JoinSplitFrom(format: string, start: nat, sh: Shape)
    requires start <= |format| && WellFormed(sh)
    requires format[start..] == Join(sh.lits, sh.specs)
    decreases |sh.specs|, 1
    ensures SplitFrom(format, start) == sh
  {
    if sh.specs == [] {
      JoinSplitNone(format, start, sh);
    } else {
      JoinSplitCons(format, start, sh);
    }
  }

  lemma {:induction false} JoinSplitCons(format: string, start: nat, sh: Shape)
    requires start <= |format| && WellFormed(sh) && sh.specs != []
    requires format[start..] == Join(sh.lits, sh.specs)
    decreases |sh.specs|, 0
    ensures SplitFrom(format, start) == sh
  {
    var tail := Shape(sh.lits[1..], sh.specs[1..]);
    var close := start + |sh.lits[0]| + 1 + |sh.specs[0]|;
    WellFormedTail(sh);
    JoinTail(format, start, sh);
    JoinSplitFrom(format, close + 1, tail);
    JoinHead(format, start, sh);
  }

  /** Where the text after the first placeholder of a joined shape starts. */
  lemma JoinTail(format: string, start: nat, sh: Shape)
    requires start <= |format| && WellFormed(sh) && |sh.specs| > 0
    requires format[start..] == Join(sh.lits, sh.specs)
    ensures var close := start + |sh.lits[0]| + 1 + |sh.specs[0]|;
            close < |format| && format[close + 1..] == Join(sh.lits[1..], sh.specs[1..])
  {
    JoinLocate(format, start, sh);
  }

  /** Once the rest of a joined shape splits back, so does the whole. */
  lemma JoinHead(format: string, start: nat, sh: Shape)
    requires start <= |format| && WellFormed(sh) && |sh.specs| > 0
    requires format[start..] == Join(sh.lits, sh.specs)
    requires var close := start + |sh.lits[0]| + 1 + |sh.specs[0]|;
             close < |format| && SplitFrom(format, close + 1) == Shape(sh.lits[1..], sh.specs[1..])
    ensures SplitFrom(format, start) == sh
  {
    JoinLocate(format, start, sh);
    JoinSplitStep(format, start, sh);
  }

  /** A shape without placeholders is its one literal, which holds none. */
  lemma JoinSplitNone(format: string, start: nat, sh: Shape)
    requires start <= |format| && WellFormed(sh) && sh.specs == []
    requires format[start..] == Join(sh.lits, sh.specs)
    ensures SplitFrom(format, start) == sh
  {
    NoPlaceholderSplits(format, start);
    assert sh == Shape([format[start..]], []);
  }

  /** The scan's step over the first placeholder of a shape, given where the
      braces are and what the rest of the text splits into. */
  lemma JoinSplitStep(format: string, start: nat, sh: Shape)
    requires |sh.lits| > 0 && |sh.specs| > 0
    requires var open := start + |sh.lits[0]|;
             var close := open + 1 + |sh.specs[0]|;
             && close < |format|
             && FindChar(format, '{', start) == Some(open)
             && FindChar(format, '}', open) == Some(close)
             && format[start..open] == sh.lits[0]
             && format[open + 1..close] == sh.specs[0]
             && SplitFrom(format, close + 1) == Shape(sh.lits[1..], sh.specs[1..])
    ensures SplitFrom(format, start) == sh
  {
    var open := start + |sh.lits[0]|;
    SplitFromStep(format, start, open, open + 1 + |sh.specs[0]|);
    ShapeCons(sh);
  }

  lemma ShapeCons(sh: Shape)
    requires |sh.lits| > 0 && |sh.specs| > 0
    ensures Shape([sh.lits[0]] + sh.lits[1..], [sh.specs[0]] + sh.specs[1..]) == sh
  {
    assert [sh.lits[0]] + sh.lits[1..] == sh.lits;
    assert [sh.specs[0]] + sh.specs[1..] == sh.specs;
  }

  /** Where the scan finds the first placeholder of a joined well-formed shape. */
  lemma JoinLocate(format: string, start: nat, sh: Shape)
    requires start <= |format| && WellFormed(sh) && |sh.specs| > 0
    requires format[start..] == Join(sh.lits, sh.specs)
    ensures var open := start + |sh.lits[0]|;
            var close := open + 1 + |sh.specs[0]|;
            && close < |format|
            && FindChar(format, '{', start) == Some(open)
            && FindChar(format, '}', open) == Some(close)
            && format[start..open] == sh.lits[0]
            && format[open + 1..close] == sh.specs[0]
            && format[close + 1..] == Join(sh.lits[1..], sh.specs[1..])
  {
    var l, sp := sh.lits[0], sh.specs[0];
    var open := start + |l|;
    var close := open + 1 + |sp|;
    BracedLayout(format, start, l, sp, Join(sh.lits[1..], sh.specs[1..]));
    LocateBraces(format, start, open, close);
  }

  /** One step of the scan, once both braces are located. */
  lemma SplitFromStep(format: string, start: nat, open: nat, close: nat)
    requires start <= open < close < |format|
    requires FindChar(format, '{', start) == Some(open)
    requires FindChar(format, '}', open) == Some(close)
    ensures SplitFrom(format, start)
            == Shape([format[start..open]] + SplitFrom(format, close + 1).lits,
                     [format[open + 1..close]] + SplitFrom(format, close + 1).specs)
  {
  }

  /** Text holding no placeholder splits into itself alone. */
  lemma NoPlaceholderSplits(format: string, start: nat)
    requires start <= |format| && NoPlaceholder(format[start..])
    ensures SplitFrom(format, start) == Shape([format[start..]], [])
  {
    var t := format[start..];
    match FindChar(format, '{', start)
    case None =>
    case Some(open) =>
      forall j | open <= j < |format| ensures format[j] != '}' {
        assert format[open] == t[open - start];
        assert format[j] == t[j - start];
        assert !BracePair(t, open - start, j - start);
      }
  }

  /** Where the pieces sit when `format[start..]` is `l + "{" + sp + "}" + rest`. */
  lemma BracedLayout(format: string, start: nat, l: string, sp: string, rest: string)
    requires start <= |format|
    requires format[start..] == l + "{" + sp + "}" + rest
    ensures var open := start + |l|;
            var close := open + 1 + |sp|;
            && close < |format|
            && format[open] == '{' && format[close] == '}'
            && format[start..open] == l
            && format[open + 1..close] == sp
            && format[close + 1..] == rest
  {
    var s := format[start..];
    var open := start + |l|;
    var close := open + 1 + |sp|;
    assert s[|l|] == '{' && s[|l| + 1 + |sp|] == '}';
    assert s[..|l|] == l;
    assert s[|l| + 1..|l| + 1 + |sp|] == sp;
    assert s[|l| + 2 + |sp|..] == rest;
    assert format[start..open] == s[..|l|];
    assert format[open + 1..close] == s[|l| + 1..|l| + 1 + |sp|];
    assert format[close + 1..] == s[|l| + 2 + |sp|..];
  }

  /** The scan from `start` finds the braces at `open` and `close` when the
      text before `open` has no `{` and the text between has no `}`. */
  lemma LocateBraces(format: string, start: nat, open: nat, close: nat)
    requires start <= open < close < |format|
    requires format[open] == '{' && format[close] == '}'
    requires Lacks(format[start..open], '{') && Lacks(format[open + 1..close], '}')
    ensures FindChar(format, '{', start) == Some(open)
    ensures FindChar(format, '}', open) == Some(close)
  {
    forall j | start <= j < open ensures format[j] != '{' {
      assert format[j] == format[start..open][j - start];
    }
    FindCharAt(format, '{', start, open);
    forall j | open <= j < close ensures format[j] != '}' {
      if j > open {
        assert format[j] == format[open + 1..close][j - open - 1];
      }
    }
    FindCharAt(format, '}', open, close);
  }

  /** The round trips between format strings and well-formed shapes. */
  lemma SplitJoinRoundTrip(format: string, sh: Shape)
    ensures WellFormed(SplitFormat(format))
    ensures Join(SplitFormat(format).lits, SplitFormat(format).specs) == format
    ensures WellFormed(sh) ==> SplitFormat(Join(sh.lits, sh.specs)) == sh
  {
    SplitFromWellFormed(format, 0);
    SplitFromJoin(format, 0);
    assert format[0..] == format;
    if WellFormed(sh) {
      var f := Join(sh.lits, sh.specs);
      assert f[0..] == f;
      JoinSplitFrom(f, 0, sh);
    }
  }
}
