/**
 * The handful of Foundation string operations the cookie client relies on:
 * `range(of:)` (first occurrence of a literal), `components(separatedBy:)`
 * (split on every occurrence of a literal separator) and the ASCII part of
 * `caseInsensitiveContains`. Strings are `seq<char>`; there is no Unicode
 * normalisation or grapheme clustering.
 */
module Text {
  import opened Wrappers

  /** `pat` occurs in `s` starting at index `i`. */
  predicate OccursAt(s: string, pat: string, i: int) {
    0 <= i && i + |pat| <= |s| && s[i..i + |pat|] == pat
  }

  /** `pat` occurs somewhere in `s`. */
  predicate Contains(s: string, pat: string) {
    exists i | 0 <= i <= |s| :: OccursAt(s, pat, i)
  }

  /** `i` is the first position at which `pat` occurs in `s`. */
  predicate FirstOccurrence(s: string, pat: string, i: int) {
    OccursAt(s, pat, i) && forall j | 0 <= j < i :: !OccursAt(s, pat, j)
  }

  /** Scans `s` from position `from` for the first occurrence of `pat`. */
  function FindFrom(s: string, pat: string, from: nat): (r: Option<nat>)
    requires from <= |s|
    ensures r.Some? ==> from <= r.value && OccursAt(s, pat, r.value)
    ensures r.Some? ==> forall j | from <= j < r.value :: !OccursAt(s, pat, j)
    ensures r.None? ==> forall j | from <= j <= |s| :: !OccursAt(s, pat, j)
    decreases |s| - from
  {
    if OccursAt(s, pat, from) then Some(from)
    else if from == |s| then None
    else FindFrom(s, pat, from + 1)
  }

  /**
   * Foundation's `s.range(of: pat)?.lowerBound`: the first occurrence of a
   * non-empty literal, or `None` when `pat` does not occur.
   */
  function Find(s: string, pat: string): (r: Option<nat>)
    requires |pat| > 0
    ensures r.Some? <==> Contains(s, pat)
    ensures r.Some? ==> FirstOccurrence(s, pat, r.value)
  {
    FindFrom(s, pat, 0)
  }

  /** The text after the first occurrence of `pat`, as `s[range.upperBound...]` computes it. */
  function After(s: string, pat: string): (r: Option<string>)
    requires |pat| > 0
    ensures r.Some? <==> Contains(s, pat)
    ensures r.Some? ==> exists i :: FirstOccurrence(s, pat, i) && r.value == s[i + |pat|..]
  {
    match Find(s, pat)
    case None => None
    case Some(i) => Some(s[i + |pat|..])
  }

  /**
   * `s.components(separatedBy: sep)`: the pieces between successive
   * left-to-right occurrences of `sep`. A string without `sep` is one piece.
   */
  function Split(s: string, sep: string): (r: seq<string>)
    requires |sep| > 0
    ensures |r| > 0
    ensures forall k | 0 <= k < |r| :: !Contains(r[k], sep)
    decreases |s|
  {
    match Find(s, sep)
    case None => [s]
    case Some(i) =>
      PieceBeforeFirstIsFree(s, sep, i);
      [s[..i]] + Split(s[i + |sep|..], sep)
  }

  /** The text before the first occurrence of `sep` does not contain `sep`. */
  lemma PieceBeforeFirstIsFree(s: string, sep: string, i: int)
    requires |sep| > 0 && FirstOccurrence(s, sep, i)
    ensures !Contains(s[..i], sep)
  {
    forall j | 0 <= j <= i
      ensures !OccursAt(s[..i], sep, j)
    {
      if OccursAt(s[..i], sep, j) {
        assert s[..i][j..j + |sep|] == s[j..j + |sep|];
        assert OccursAt(s, sep, j);
      }
    }
  }

  /** Glues pieces back together with `sep` between consecutive pieces. */
  function Join(pieces: seq<string>, sep: string): string
    requires |pieces| > 0
  {
    if |pieces| == 1 then pieces[0] else pieces[0] + sep + Join(pieces[1..], sep)
  }

  /** Splitting loses nothing: joining the pieces with the separator gives the input back. */
  lemma {:induction false} JoinSplit(s: string, sep: string)
    requires |sep| > 0
    ensures Join(Split(s, sep), sep) == s
    decreases |s|
  {
    match Find(s, sep)
    case None =>
    case Some(i) =>
      var rest := s[i + |sep|..];
      var pieces, tail := Split(s, sep), Split(rest, sep);
      assert pieces == [s[..i]] + tail;
      assert pieces[1..] == tail;
      JoinSplit(rest, sep);
      assert Join(pieces, sep) == s[..i] + sep + rest;
      assert s == s[..i] + s[i..i + |sep|] + rest;
  }

  /** ASCII lower-casing of one character; every other character is left alone. */
  function LowerChar(c: char): (r: char)
    ensures 'A' <= c <= 'Z' ==> 'a' <= r <= 'z' && r as int == c as int - 'A' as int + 'a' as int
    ensures !('A' <= c <= 'Z') ==> r == c
  {
    if 'A' <= c <= 'Z' then (c as int - 'A' as int + 'a' as int) as char else c
  }

  /** ASCII lower-casing of a string. */
  function Lower(s: string): (r: string)
    ensures |r| == |s|
    ensures forall i | 0 <= i < |s| :: r[i] == LowerChar(s[i])
  {
    seq(|s|, i requires 0 <= i < |s| => LowerChar(s[i]))
  }

  /**
   * `caseInsensitiveContains`, a case-insensitive `range(of:)` with case
   * folding restricted to ASCII letters. Like `range(of:)`, it finds nothing
   * for an empty pattern.
   */
  predicate ContainsIgnoringCase(s: string, pat: string)
    ensures ContainsIgnoringCase(s, pat) ==> 0 < |pat| <= |s|
  {
    |pat| > 0 && Contains(Lower(s), Lower(pat))
  }

  /** `pat` occurs in `s` at `i` once both are lower-cased. */
  predicate OccursAtIgnoringCase(s: string, pat: string, i: int) {
    0 <= i && i + |pat| <= |s| && Lower(s[i..i + |pat|]) == Lower(pat)
  }

  /**
   * What the test means: the pattern is non-empty and some stretch of the
   * text equals it once both are lower-cased.
   */
  lemma ContainsIgnoringCaseAt(s: string, pat: string)
    ensures ContainsIgnoringCase(s, pat) <==>
      |pat| > 0 && exists i | 0 <= i <= |s| :: OccursAtIgnoringCase(s, pat, i)
  {
    forall i | 0 <= i <= |s|
      ensures OccursAt(Lower(s), Lower(pat), i) <==> OccursAtIgnoringCase(s, pat, i)
    {
      if i + |pat| <= |s| {
        assert Lower(s)[i..i + |pat|] == Lower(s[i..i + |pat|]);
      }
    }
  }

  /** In particular an exact occurrence of a non-empty pattern matches. */
  lemma OccurrenceMatches(s: string, pat: string, i: int)
    requires |pat| > 0 && OccursAt(s, pat, i)
    ensures ContainsIgnoringCase(s, pat)
  {
    ContainsIgnoringCaseAt(s, pat);
    assert OccursAtIgnoringCase(s, pat, i);
  }

  /** Lower-casing twice is lower-casing once. */
  lemma LowerIdempotent(s: string)
    ensures Lower(Lower(s)) == Lower(s)
  {
  }

  /** The test ignores case: changing the case of either side changes nothing. */
  lemma CaseIgnored(s: string, pat: string)
    ensures ContainsIgnoringCase(Lower(s), pat) == ContainsIgnoringCase(s, pat)
    ensures ContainsIgnoringCase(s, Lower(pat)) == ContainsIgnoringCase(s, pat)
  {
    LowerIdempotent(s);
    LowerIdempotent(pat);
  }
}
