/**
 * The Python string operations the request handlers rely on, restricted to
 * ASCII: `str.strip()` with no argument, `str.lower()`, and the search for the
 * last separator that `str.rsplit(sep, 1)` performs.
 */
module Text {
  import opened Wrappers

  /** `str.isspace()` on ASCII: \t \n \v \f \r (9..13), the separators
      \x1c..\x1f (28..31) and the space (32). */
  predicate IsSpace(c: char) {
    9 <= c as int <= 13 || 28 <= c as int <= 32
  }

  predicate AllSpace(s: string) {
    forall i :: 0 <= i < |s| ==> IsSpace(s[i])
  }

  /** The end of the run of whitespace that starts at `i`: the first index at
      or after `i` that holds no whitespace, or |s|. */
  function SpaceRunEnd(s: string, i: nat): (j: nat)
    requires i <= |s|
    ensures i <= j <= |s|
    ensures forall k :: i <= k < j ==> IsSpace(s[k])
    ensures j == |s| || !IsSpace(s[j])
    decreases |s| - i
  {
    if i == |s| || !IsSpace(s[i]) then i else SpaceRunEnd(s, i + 1)
  }

  /** The start of the run of whitespace that ends just before `j`: the
      smallest index from which s[..j] holds only whitespace. */
  function SpaceRunStart(s: string, j: nat): (i: nat)
    requires j <= |s|
    ensures i <= j
    ensures forall k :: i <= k < j ==> IsSpace(s[k])
    ensures i == 0 || !IsSpace(s[i - 1])
  {
    if j == 0 || !IsSpace(s[j - 1]) then j else SpaceRunStart(s, j - 1)
  }

  /** `s.strip()`: the text between the leading and the trailing whitespace;
      nothing when `s` is all whitespace. The result neither starts nor ends
      with whitespace. */
  function Strip(s: string): (r: string)
    ensures |r| <= |s|
    ensures r == [] || (!IsSpace(r[0]) && !IsSpace(r[|r| - 1]))
  {
    var lo, hi := SpaceRunEnd(s, 0), SpaceRunStart(s, |s|);
    if lo == |s| then [] else s[lo..hi]
  }

  /** What `Strip` keeps is the slice of `s` that starts after the leading
      whitespace, and what it cuts off on either side is whitespace. */
  lemma {:induction false} StripSlice(s: string)
    ensures var lead := SpaceRunEnd(s, 0);
      && lead + |Strip(s)| <= |s|
      && Strip(s) == s[lead..lead + |Strip(s)|]
      && (forall k :: 0 <= k < lead ==> IsSpace(s[k]))
      && (forall k :: lead + |Strip(s)| <= k < |s| ==> IsSpace(s[k]))
  {
    var lo, hi := SpaceRunEnd(s, 0), SpaceRunStart(s, |s|);
    if lo < |s| {
      assert lo < hi;
    }
  }

  /** Stripping leaves nothing exactly when the text is all whitespace: this is
      the "empty after strip" check the handlers apply to usernames. */
  lemma {:induction false} StripEmptyIff(s: string)
    ensures Strip(s) == [] <==> AllSpace(s)
  {
    var lo, hi := SpaceRunEnd(s, 0), SpaceRunStart(s, |s|);
    if lo < |s| {
      assert lo < hi;
      assert Strip(s)[0] == s[lo];
    }
  }

  /** Stripping twice is stripping once. */
  lemma {:induction false} StripIdempotent(s: string)
    ensures Strip(Strip(s)) == Strip(s)
  {
    var r := Strip(s);
    if r != [] {
      assert SpaceRunEnd(r, 0) == 0;
      assert SpaceRunStart(r, |r|) == |r|;
      assert r[0..|r|] == r;
    }
  }

  /** `c.lower()` on ASCII. */
  function LowerChar(c: char): char {
    if 'A' <= c <= 'Z' then (c as int + 32) as char else c
  }

  /** `s.lower()` on ASCII. */
  function Lower(s: string): (r: string)
    ensures |r| == |s|
  {
    seq(|s|, i requires 0 <= i < |s| => LowerChar(s[i]))
  }

  /** Lower-casing is idempotent and moves no separator. */
  lemma {:induction false} LowerLower(s: string)
    ensures Lower(Lower(s)) == Lower(s)
    ensures forall i :: 0 <= i < |s| ==> (Lower(s)[i] == '.' <==> s[i] == '.')
  {
  }

  /** The position of the last `c` in `s`, the split point of `s.rsplit(c, 1)`;
      None when `c` does not occur. */
  function LastIndexOf(s: string, c: char): (r: Option<nat>)
    ensures r.None? <==> c !in s
    ensures r.Some? ==> r.value < |s| && s[r.value] == c && c !in s[r.value + 1..]
  {
    if s == [] then None
    else if s[|s| - 1] == c then Some(|s| - 1)
    else
      var r := LastIndexOf(s[..|s| - 1], c);
      assert s == s[..|s| - 1] + [s[|s| - 1]];
      if r.Some? then
        assert s[r.value + 1..] == s[..|s| - 1][r.value + 1..] + [s[|s| - 1]];
        r
      else r
  }
}
