/** String helpers shared by the import-line matcher and the alias rewriter. */
module Text {

  import opened Wrappers

  /** Unicode White_Space, the class behind both Rust's `char::is_whitespace`
      (used by `trim_start`) and the regex class `\s`. */
  predicate IsWhitespace(c: char)
  {
    c == ' ' || c == '\t' || c == '\n' || c == '\r' || c == '\U{000B}' || c == '\U{000C}'
    || c == '\U{0085}' || c == '\U{00A0}' || c == '\U{1680}'
    || ('\U{2000}' <= c <= '\U{200A}')
    || c == '\U{2028}' || c == '\U{2029}' || c == '\U{202F}' || c == '\U{205F}' || c == '\U{3000}'
  }

  predicate AllWhitespace(s: string)
  {
    forall i :: 0 <= i < |s| ==> IsWhitespace(s[i])
  }

  predicate StartsWith(s: string, prefix: string)
  {
    |prefix| <= |s| && s[..|prefix|] == prefix
  }

  predicate EndsWith(s: string, suffix: string)
  {
    |suffix| <= |s| && s[|s| - |suffix|..] == suffix
  }

  /** `s` holds `pat` starting at index `i`. */
  predicate OccursAt(s: string, pat: string, i: nat)
  {
    i + |pat| <= |s| && s[i..i + |pat|] == pat
  }

  /** Substring test (`str::contains`): whether the leftmost-occurrence search finds
      anything. */
  function Contains(s: string, pat: string): (r: bool)
    ensures r <==> exists i :: 0 <= i <= |s| && OccursAt(s, pat, i)
  {
    FirstOccurrenceIsFirst(s, pat);
    FirstOccurrence(s, pat).Some?
  }

  /** The leftmost index where `pat` occurs, if any: where `str::match_indices`
      reports its first match. */
  function FirstOccurrence(s: string, pat: string): (r: Option<nat>)
    ensures r.Some? ==> r.value + |pat| <= |s|
    decreases |s|
  {
    if StartsWith(s, pat) then Some(0)
    else if s == [] then None
    else
      match FirstOccurrence(s[1..], pat)
      case None => None
      case Some(k) => Some(k + 1)
  }

  /** `FirstOccurrence` finds an occurrence with none before it, and finds nothing
      only when there is no occurrence at all. */
  lemma {:induction false} FirstOccurrenceIsFirst(s: string, pat: string)
    ensures FirstOccurrence(s, pat).None? ==> forall j :: 0 <= j <= |s| ==> !OccursAt(s, pat, j)
    ensures FirstOccurrence(s, pat).Some? ==> OccursAt(s, pat, FirstOccurrence(s, pat).value)
    ensures FirstOccurrence(s, pat).Some? ==> forall j :: 0 <= j < FirstOccurrence(s, pat).value ==> !OccursAt(s, pat, j)
    decreases |s|
  {
    if !StartsWith(s, pat) && s != [] {
      FirstOccurrenceIsFirst(s[1..], pat);
      forall j | 0 < j <= |s| ensures OccursAt(s, pat, j) <==> OccursAt(s[1..], pat, j - 1) {
        ShiftOccurrence(s, pat, j);
      }
    }
  }

  /** An occurrence with none before it is the one `FirstOccurrence` finds. */
  lemma FirstOccurrenceUnique(s: string, pat: string, i: nat)
    requires OccursAt(s, pat, i)
    requires forall j :: 0 <= j < i ==> !OccursAt(s, pat, j)
    ensures FirstOccurrence(s, pat) == Some(i)
  {
    FirstOccurrenceIsFirst(s, pat);
  }

  /** An occurrence at `j > 0` is an occurrence at `j - 1` in the tail, and back. */
  lemma ShiftOccurrence(s: string, pat: string, j: nat)
    requires 0 < j <= |s|
    ensures OccursAt(s, pat, j) <==> OccursAt(s[1..], pat, j - 1)
  {
    if j + |pat| <= |s| {
      assert s[1..][j - 1..j - 1 + |pat|] == s[j..j + |pat|];
    }
  }

  /** `str::trim_start`: drops the leading run of white space. */
  function TrimStart(s: string): (r: string)
    ensures |r| <= |s| && r == s[|s| - |r|..]
    ensures AllWhitespace(s[..|s| - |r|])
    ensures r == [] || !IsWhitespace(r[0])
    decreases |s|
  {
    if s != [] && IsWhitespace(s[0]) then
      var r := TrimStart(s[1..]);
      assert s[..|s| - |r|] == [s[0]] + s[1..][..|s[1..]| - |r|];
      r
    else
      s
  }

  /** Index of the first occurrence of `c` in `s`, if any. */
  function IndexOf(s: string, c: char): (r: Option<nat>)
    ensures r.None? <==> c !in s
    ensures r.Some? ==> r.value < |s| && s[r.value] == c && c !in s[..r.value]
  {
    if s == [] then None
    else if s[0] == c then Some(0)
    else
      var r := IndexOf(s[1..], c);
      assert s[1..] == s[1..];
      if r.None? then None
      else
        assert s[..r.value + 1] == [s[0]] + s[1..][..r.value];
        Some(r.value + 1)
  }
}
