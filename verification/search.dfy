/** The two `std::string_view::find` overloads the tokenizer uses: searching
    for one character from a position, and searching for a substring from the
    start. `None` plays the role of `npos`. */
module Search {
  import opened Types

  /** `needle` occurs in `hay` starting at index `i`. */
  predicate OccursAt(hay: string, needle: string, i: int)
  {
    0 <= i && i + |needle| <= |hay| && hay[i..i + |needle|] == needle
  }

  /** The least index at or after `from` holding `c`. */
  function FindChar(s: string, c: char, from: nat): (r: Option<nat>)
    decreases |s| - from
    ensures r.Some? ==> from <= r.value < |s| && s[r.value] == c
  {
    if from >= |s| then None
    else if s[from] == c then Some(from)
    else FindChar(s, c, from + 1)
  }

  /** `FindChar` finds the least position: no `c` lies between `from` and the
      position found, or after `from` at all when nothing is found. */
  lemma {:induction false} FindCharLeast(s: string, c: char, from: nat)
    decreases |s| - from
    ensures FindChar(s, c, from).Some? ==> forall j :: from <= j < FindChar(s, c, from).value ==> s[j] != c
    ensures FindChar(s, c, from).None? ==> forall j :: from <= j < |s| ==> s[j] != c
  {
    if from < |s| && s[from] != c {
      FindCharLeast(s, c, from + 1);
    }
  }

  /** Conversely, the first `c` at or after `from` is what `FindChar` finds. */
  lemma {:induction false} FindCharAt(s: string, c: char, from: nat, k: nat)
    requires from <= k < |s| && s[k] == c
    requires forall j :: from <= j < k ==> s[j] != c
    decreases k - from
    ensures FindChar(s, c, from) == Some(k)
  {
    if from < k {
      FindCharAt(s, c, from + 1, k);
    }
  }

  /** The least index at or after `from` where `needle` occurs in `hay`. */
  function FindSubFrom(hay: string, needle: string, from: nat): (r: Option<nat>)
    decreases |hay| - from
    ensures r.Some? ==> from <= r.value && OccursAt(hay, needle, r.value)
  {
    if from + |needle| > |hay| then None
    else if hay[from..from + |needle|] == needle then Some(from)
    else FindSubFrom(hay, needle, from + 1)
  }

  /** `FindSubFrom` finds the least occurrence at or after `from`, and finds
      nothing only when there is no occurrence there. */
  lemma {:induction false} FindSubFromLeast(hay: string, needle: string, from: nat)
    decreases |hay| - from
    ensures FindSubFrom(hay, needle, from).Some? ==>
              forall j :: from <= j < FindSubFrom(hay, needle, from).value ==> !OccursAt(hay, needle, j)
    ensures FindSubFrom(hay, needle, from).None? ==> forall j :: from <= j ==> !OccursAt(hay, needle, j)
  {
    if from + |needle| <= |hay| && hay[from..from + |needle|] != needle {
      FindSubFromLeast(hay, needle, from + 1);
    }
  }

  /** `hay.find(needle)`: the first occurrence of `needle` in `hay`. */
  function FindSub(hay: string, needle: string): (r: Option<nat>)
    ensures r.Some? ==> OccursAt(hay, needle, r.value)
  {
    FindSubFrom(hay, needle, 0)
  }

  /** `FindSub` reports an occurrence exactly when there is one, and the one
      it reports is the first. */
  lemma FindSubLeast(hay: string, needle: string)
    ensures FindSub(hay, needle).Some? <==> exists i :: OccursAt(hay, needle, i)
    ensures FindSub(hay, needle).Some? ==>
              forall j :: 0 <= j < FindSub(hay, needle).value ==> !OccursAt(hay, needle, j)
  {
    FindSubFromLeast(hay, needle, 0);
  }

  /** A first occurrence is what `FindSub` finds. */
  lemma FindSubIsFirst(hay: string, needle: string, p: nat)
    requires OccursAt(hay, needle, p)
    requires forall j :: 0 <= j < p ==> !OccursAt(hay, needle, j)
    ensures FindSub(hay, needle) == Some(p)
  {
    FindSubLeast(hay, needle);
  }
}
