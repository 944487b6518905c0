/**
 * The Python string operations the analysis script relies on, on `string`
 * (`seq<char>`): substring search (`pat in s`), `s.split(sep)`, slicing
 * `s[:n]` and `s.lower()` restricted to ASCII.
 */
module Strings {
  import opened Wrappers

  /** `pat` occurs in `s` starting at index `i`. */
  predicate OccursAt(s: string, pat: string, i: int)
  {
    0 <= i && i + |pat| <= |s| && s[i..i + |pat|] == pat
  }

  /** `p` is a prefix of `s` (Python's `s.startswith(p)`). */
  predicate IsPrefix(p: string, s: string)
  {
    |p| <= |s| && s[..|p|] == p
  }

  /** Leftmost occurrence of `pat` in `s` at or after index `from`. */
  function FindFrom(s: string, pat: string, from: nat): (r: Option<nat>)
    decreases |s| - from
    ensures r.Some? ==> from <= r.value && OccursAt(s, pat, r.value)
    ensures forall j :: from <= j && (r.None? || j < r.value) ==> !OccursAt(s, pat, j)
  {
    if from + |pat| > |s| then None
    else if s[from..from + |pat|] == pat then Some(from)
    else FindFrom(s, pat, from + 1)
  }

  /** Index of the first occurrence of `pat` in `s`, the search behind Python's `in` and `split`. */
  function IndexOf(s: string, pat: string): (r: Option<nat>)
    ensures r.Some? ==> OccursAt(s, pat, r.value)
    ensures r.Some? ==> forall j :: 0 <= j < r.value ==> !OccursAt(s, pat, j)
    ensures r.None? ==> forall j :: !OccursAt(s, pat, j)
  {
    FindFrom(s, pat, 0)
  }

  /** Python's `pat in s`: contiguous-substring containment. */
  function Contains(s: string, pat: string): (b: bool)
    ensures b <==> exists i :: OccursAt(s, pat, i)
  {
    IndexOf(s, pat).Some?
  }

  /** Python's `s[:n]`: the whole of `s` when it is shorter than `n`. */
  function Take(s: string, n: nat): (r: string)
    ensures IsPrefix(r, s)
    ensures |r| == if |s| < n then |s| else n
  {
    if |s| <= n then s else s[..n]
  }

  lemma OccursInPrefix(s: string, pat: string, n: nat, j: int)
    requires n <= |s| && OccursAt(s[..n], pat, j)
    ensures OccursAt(s, pat, j)
  {
    assert s[..n][j..j + |pat|] == s[j..j + |pat|];
  }

  /** The text before the first occurrence of `pat` does not contain `pat`. */
  lemma BeforeFirstIsClean(s: string, pat: string, i: nat)
    requires |pat| > 0 && IndexOf(s, pat) == Some(i)
    ensures !Contains(s[..i], pat)
  {
    forall j | OccursAt(s[..i], pat, j)
      ensures false
    {
      OccursInPrefix(s, pat, i, j);
    }
  }

  /**
   * Python's `s.split(sep)` for a non-empty separator: the pieces between
   * the successive non-overlapping occurrences of `sep`, scanned left to right.
   */
  function Split(s: string, sep: string): (parts: seq<string>)
    requires |sep| > 0
    decreases |s|
    ensures |parts| >= 1
    ensures |parts| >= 2 <==> Contains(s, sep)
    ensures forall k :: 0 <= k < |parts| ==> !Contains(parts[k], sep)
  {
    match IndexOf(s, sep)
    case None => [s]
    case Some(i) =>
      BeforeFirstIsClean(s, sep, i);
      [s[..i]] + Split(s[i + |sep|..], sep)
  }

  /** Python's `sep.join(parts)`. */
  function Join(parts: seq<string>, sep: string): string
  {
    if |parts| == 0 then []
    else if |parts| == 1 then parts[0]
    else parts[0] + sep + Join(parts[1..], sep)
  }

  /** Splitting loses nothing: joining the pieces with the separator gives the text back. */
  lemma {:induction false} SplitJoin(s: string, sep: string)
    requires |sep| > 0
    ensures Join(Split(s, sep), sep) == s
    decreases |s|
  {
    match IndexOf(s, sep)
    case None =>
    case Some(i) =>
      var rest := s[i + |sep|..];
      SplitJoin(rest, sep);
      assert Split(s, sep) == [s[..i]] + Split(rest, sep);
      assert s[i..i + |sep|] == sep;
      assert s == s[..i] + s[i..i + |sep|] + rest;
  }

  /**
   * The first piece of a split is the text up to the first occurrence of the
   * separator, or all of it when there is none.
   */
  lemma FirstPiece(s: string, sep: string)
    requires |sep| > 0
    ensures var piece := Split(s, sep)[0];
      && IsPrefix(piece, s)
      && (forall j :: 0 <= j < |piece| ==> !OccursAt(s, sep, j))
      && (piece == s || OccursAt(s, sep, |piece|))
  {
    match IndexOf(s, sep)
    case None =>
      assert Split(s, sep)[0] == s;
    case Some(k) =>
      assert Split(s, sep)[0] == s[..k];
  }

  /**
   * `s.split(sep)[1]`, which exists as soon as `sep` occurs: the text after the
   * first occurrence, cut before the next one.
   */
  lemma SecondPiece(s: string, sep: string)
    requires |sep| > 0 && Contains(s, sep)
    ensures |Split(s, sep)| >= 2
    ensures var rest := s[IndexOf(s, sep).value + |sep|..];
      var piece := Split(s, sep)[1];
      && IsPrefix(piece, rest)
      && (forall j :: 0 <= j < |piece| ==> !OccursAt(rest, sep, j))
      && (piece == rest || OccursAt(rest, sep, |piece|))
  {
    var i := IndexOf(s, sep).value;
    var rest := s[i + |sep|..];
    var parts := Split(s, sep);
    assert parts == [s[..i]] + Split(rest, sep);
    assert parts[1] == Split(rest, sep)[0];
    FirstPiece(rest, sep);
  }

  /** A text without the first character of `pat` has no occurrence of `pat`. */
  lemma AbsentFirstChar(s: string, pat: string)
    requires |pat| > 0 && pat[0] !in s
    ensures IndexOf(s, pat) == None
  {
  }

  /** An occurrence at `i` is the first one when the first character of `pat` does not appear before `i`. */
  lemma FirstOccurrenceAt(s: string, pat: string, i: nat)
    requires |pat| > 0 && OccursAt(s, pat, i) && pat[0] !in s[..i]
    ensures IndexOf(s, pat) == Some(i)
  {
  }

  /** ASCII upper case to lower case; every other character is kept. */
  function LowerChar(c: char): char
  {
    if 'A' <= c <= 'Z' then (c as int + 32) as char else c
  }

  predicate IsLowerChar(c: char)
  {
    !('A' <= c <= 'Z')
  }

  /** Python's `s.lower()` on ASCII text. */
  function Lower(s: string): (r: string)
    ensures |r| == |s|
    ensures forall i :: 0 <= i < |s| ==> r[i] == LowerChar(s[i])
  {
    if s == [] then [] else [LowerChar(s[0])] + Lower(s[1..])
  }

  /** Lowering leaves no ASCII capital behind. */
  lemma LowerIsLower(s: string)
    ensures forall i :: 0 <= i < |s| ==> IsLowerChar(Lower(s)[i])
  {
  }

  /** Lowering twice is lowering once. */
  lemma LowerIdempotent(s: string)
    ensures Lower(Lower(s)) == Lower(s)
  {
  }

  /** Lowering commutes with taking a slice. */
  lemma LowerSlice(s: string, a: nat, b: nat)
    requires a <= b <= |s|
    ensures Lower(s)[a..b] == Lower(s[a..b])
  {
    var l, r := Lower(s)[a..b], Lower(s[a..b]);
    forall i | 0 <= i < b - a
      ensures l[i] == r[i]
    {
      assert s[a..b][i] == s[a + i];
    }
  }

  /** A case-sensitive occurrence is also an occurrence, at the same place, once both sides are lowered. */
  lemma OccursLower(s: string, pat: string, i: int)
    requires OccursAt(s, pat, i)
    ensures OccursAt(Lower(s), Lower(pat), i)
  {
    assert s[i..i + |pat|] == pat;
    LowerSlice(s, i, i + |pat|);
  }
}
