/** Whitespace trimming of a field before numeric conversion
    (`ltrim`, `rtrim`, `trim`). Whitespace is `std::isspace` in the "C" locale. */
module Whitespace {

  /** The six characters the "C" locale classifies as white space. */
  predicate IsSpace(c: char)
  {
    c == ' ' || c == '\t' || c == '\n' || c == '\U{000B}' || c == '\U{000C}' || c == '\r'
  }

  predicate AllSpace(s: string)
  {
    forall i :: 0 <= i < |s| ==> IsSpace(s[i])
  }

  /** Drops the maximal run of leading white space. */
  function LTrim(s: string): (r: string)
    ensures |r| <= |s| && r == s[|s| - |r|..]
    ensures AllSpace(s[..|s| - |r|])
    ensures r == [] || !IsSpace(r[0])
  {
    if |s| > 0 && IsSpace(s[0]) then LTrim(s[1..]) else s
  }

  /** Drops the maximal run of trailing white space. */
  function RTrim(s: string): (r: string)
    ensures |r| <= |s| && r == s[..|r|]
    ensures AllSpace(s[|r|..])
    ensures r == [] || !IsSpace(r[|r| - 1])
  {
    if |s| > 0 && IsSpace(s[|s| - 1]) then RTrim(s[..|s| - 1]) else s
  }

  /** The text with both maximal white-space runs removed; it neither
      starts nor ends with white space. */
  function Trim(s: string): (r: string)
    ensures |r| <= |s|
    ensures r == [] || (!IsSpace(r[0]) && !IsSpace(r[|r| - 1]))
  {
    RTrim(LTrim(s))
  }

  /** What `Trim` keeps is a contiguous slice `s[lo..hi]` of the input, and
      everything outside it is white space. */
  lemma TrimIsSlice(s: string)
    ensures exists lo, hi :: 0 <= lo <= hi <= |s| && Trim(s) == s[lo..hi]
                             && AllSpace(s[..lo]) && AllSpace(s[hi..])
  {
    var l := LTrim(s);
    var r := RTrim(l);
    var lo := |s| - |l|;
    assert r == s[lo..lo + |r|];
    assert AllSpace(s[lo + |r|..]) by {
      assert s[lo + |r|..] == l[|r|..];
    }
  }

  /** `LTrim` stops exactly at the first non-space character. */
  lemma {:induction false} LTrimUnique(s: string, lo: nat)
    requires lo <= |s| && AllSpace(s[..lo])
    requires lo == |s| || !IsSpace(s[lo])
    ensures LTrim(s) == s[lo..]
  {
    if lo > 0 {
      assert IsSpace(s[..lo][0]);
      assert s[1..][..lo - 1] == s[1..lo];
      assert AllSpace(s[1..lo]) by {
        forall i | 0 <= i < lo - 1 ensures IsSpace(s[1..lo][i]) {
          assert s[1..lo][i] == s[..lo][i + 1];
        }
      }
      LTrimUnique(s[1..], lo - 1);
      assert s[1..][lo - 1..] == s[lo..];
    }
  }

  /** `RTrim` stops exactly at the last non-space character. */
  lemma {:induction false} RTrimUnique(s: string, hi: nat)
    requires hi <= |s| && AllSpace(s[hi..])
    requires hi == 0 || !IsSpace(s[hi - 1])
    ensures RTrim(s) == s[..hi]
  {
    if hi < |s| {
      assert IsSpace(s[hi..][|s| - 1 - hi]);
      var s' := s[..|s| - 1];
      assert s'[hi..] == s[hi..|s| - 1];
      assert AllSpace(s'[hi..]) by {
        forall i | 0 <= i < |s'| - hi ensures IsSpace(s'[hi..][i]) {
          assert s'[hi..][i] == s[hi..][i];
        }
      }
      RTrimUnique(s', hi);
      assert s'[..hi] == s[..hi];
    }
  }

  /** The slice `Trim` keeps is unique: any slice with white space outside it
      and non-space at both ends (or the empty slice of an all-white-space
      input) is exactly `Trim(s)`. */
  lemma TrimUnique(s: string, lo: nat, hi: nat)
    requires lo <= hi <= |s|
    requires AllSpace(s[..lo]) && AllSpace(s[hi..])
    requires lo == hi || (!IsSpace(s[lo]) && !IsSpace(s[hi - 1]))
    requires lo == hi ==> AllSpace(s)
    ensures Trim(s) == s[lo..hi]
  {
    if lo == hi {
      TrimAllSpace(s);
    } else {
      TrimSlice(s, lo, hi);
    }
  }

  lemma TrimAllSpace(s: string)
    requires AllSpace(s)
    ensures Trim(s) == []
  {
    assert s[..|s|] == s;
    LTrimUnique(s, |s|);
  }

  lemma TrimSlice(s: string, lo: nat, hi: nat)
    requires lo < hi <= |s|
    requires AllSpace(s[..lo]) && AllSpace(s[hi..])
    requires !IsSpace(s[lo]) && !IsSpace(s[hi - 1])
    ensures Trim(s) == s[lo..hi]
  {
    LTrimUnique(s, lo);
    RTrimSuffix(s, lo, hi);
  }

  lemma RTrimSuffix(s: string, lo: nat, hi: nat)
    requires lo < hi <= |s|
    requires AllSpace(s[hi..])
    requires !IsSpace(s[hi - 1])
    ensures RTrim(s[lo..]) == s[lo..hi]
  {
    var l := s[lo..];
    assert l[hi - lo..] == s[hi..];
    assert l[hi - lo - 1] == s[hi - 1];
    RTrimUnique(l, hi - lo);
    assert l[..hi - lo] == s[lo..hi];
  }

  /** Trimming twice is trimming once. */
  lemma TrimIdempotent(s: string)
    ensures Trim(Trim(s)) == Trim(s)
  {
    var t := Trim(s);
    if t == [] {
      assert Trim(t) == t;
    } else {
      assert AllSpace(t[..0]) && AllSpace(t[|t|..]);
      TrimUnique(t, 0, |t|);
    }
  }

  /** Trimming leaves interior characters alone: padding a text that does not
      start or end with white space and trimming gives the text back. */
  lemma TrimPadded(pre: string, t: string, post: string)
    requires AllSpace(pre) && AllSpace(post)
    requires t == [] || (!IsSpace(t[0]) && !IsSpace(t[|t| - 1]))
    ensures Trim(pre + t + post) == t
  {
    var s := pre + t + post;
    assert s[..|pre|] == pre;
    assert s[|pre| + |t|..] == post;
    assert s[|pre|..|pre| + |t|] == t;
    if t == [] {
      assert AllSpace(s) by {
        forall i | 0 <= i < |s| ensures IsSpace(s[i]) {
          if i < |pre| { assert s[i] == pre[i]; } else { assert s[i] == post[i - |pre|]; }
        }
      }
    }
    TrimUnique(s, |pre|, |pre| + |t|);
  }
}
