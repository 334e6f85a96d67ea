/**
 * The C library string operations that server.c relies on: `strstr`,
 * `strchr`, and the way every C string function stops at the first NUL.
 * Strings are sequences of characters; a C string's terminator is not
 * part of the sequence.
 */
module CStrings {
  import opened Wrappers

  /** `pat` occurs in `s` starting at index `i`. */
  predicate OccursAt(s: string, pat: string, i: nat)
  {
    i + |pat| <= |s| && s[i..i + |pat|] == pat
  }

  /**
   * The first index at or after `from` where `pat` occurs in `s`; `None`
   * when there is none. With `from == 0` this is the search `strstr` makes.
   */
  function FirstOccurrenceFrom(s: string, pat: string, from: nat): (r: Option<nat>)
    ensures r.Some? ==> from <= r.value && OccursAt(s, pat, r.value)
    ensures forall j :: from <= j && (r.None? || j < r.value) ==> !OccursAt(s, pat, j)
    decreases |s| - from
  {
    if from + |pat| > |s| then None
    else if s[from..from + |pat|] == pat then Some(from)
    else FirstOccurrenceFrom(s, pat, from + 1)
  }

  /** `strstr(s, pat)`: scans `s` left to right and stops at the first match. */
  method FindSubstring(s: string, pat: string) returns (found: Option<nat>)
    ensures found == FirstOccurrenceFrom(s, pat, 0)
  {
    var i := 0;
    while i + |pat| <= |s|
      invariant FirstOccurrenceFrom(s, pat, i) == FirstOccurrenceFrom(s, pat, 0)
      decreases |s| - i
    {
      if s[i..i + |pat|] == pat {
        return Some(i);
      }
      i := i + 1;
    }
    return None;
  }

  /**
   * The first index at or after `from` that holds `c`; `None` when there
   * is none. With `from == 0` this is the search `strchr` makes.
   */
  function FirstIndexOfFrom(s: string, c: char, from: nat): (r: Option<nat>)
    ensures r.Some? ==> from <= r.value < |s| && s[r.value] == c
    ensures forall j :: from <= j < |s| && (r.None? || j < r.value) ==> s[j] != c
    decreases |s| - from
  {
    if from >= |s| then None
    else if s[from] == c then Some(from)
    else FirstIndexOfFrom(s, c, from + 1)
  }

  /** `strchr(s + from, c)`: scans forward from `from` and stops at the first `c`. */
  method FindChar(s: string, c: char, from: nat) returns (found: Option<nat>)
    ensures found == FirstIndexOfFrom(s, c, from)
  {
    var i := from;
    while i < |s|
      invariant from <= i
      invariant FirstIndexOfFrom(s, c, i) == FirstIndexOfFrom(s, c, from)
      decreases |s| - i
    {
      if s[i] == c {
        return Some(i);
      }
      i := i + 1;
    }
    return None;
  }

  /**
   * What any C string function sees of a buffer holding `s`: the characters
   * before the first NUL. Decoding `%00` writes a NUL into a buffer, and
   * everything after it is then invisible to `strcmp`, `strcat` and `strlen`.
   */
  function AsCString(s: string): (r: string)
    ensures r <= s
    ensures '\0' !in r
    ensures |r| < |s| ==> s[|r|] == '\0'
  {
    match FirstIndexOfFrom(s, '\0', 0)
    case None => s
    case Some(k) => s[..k]
  }
}
