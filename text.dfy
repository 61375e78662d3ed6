/**
 * The few Python `str` operations the circular checker relies on: `in`,
 * `split(sep)[0]`, `split(sep, 1)[1]`, `rsplit(sep, 1)[-1]`,
 * `rsplit(sep, 1)[0]`, `endswith` and ASCII `lower()`, all built on
 * first- and last-occurrence search.
 */
module Text {
  import opened Base

  /** `pat` occurs in `s` starting at index `i`. */
  predicate OccursAt(s: string, pat: string, i: int)
  {
    0 <= i && i + |pat| <= |s| && s[i..i + |pat|] == pat
  }

  /** An occurrence in `s[1..]` is an occurrence in `s`, one place further on. */
  lemma OccursAtTail(s: string, pat: string, j: int)
    requires |s| > 0 && 1 <= j
    ensures OccursAt(s, pat, j) <==> OccursAt(s[1..], pat, j - 1)
  {
    if j + |pat| <= |s| {
      assert s[1..][j - 1..j - 1 + |pat|] == s[j..j + |pat|];
    }
  }

  /** An occurrence in a prefix of `s` is an occurrence in `s`. */
  lemma OccursAtPrefix(s: string, pat: string, n: int, j: int)
    requires 0 <= n <= |s|
    ensures OccursAt(s[..n], pat, j) <==> OccursAt(s, pat, j) && j + |pat| <= n
  {
    if 0 <= j && j + |pat| <= n {
      assert s[..n][j..j + |pat|] == s[j..j + |pat|];
    }
  }

  /** An occurrence in a suffix of `s` is an occurrence in `s`, shifted by where the suffix starts. */
  lemma OccursAtSuffix(s: string, pat: string, k: int, j: int)
    requires 0 <= k <= |s| && 0 <= j
    ensures OccursAt(s[k..], pat, j) <==> OccursAt(s, pat, k + j)
  {
    if j + |pat| <= |s| - k {
      assert s[k..][j..j + |pat|] == s[k + j..k + j + |pat|];
    }
  }

  /** Python `s.find(pat)`: the index of the first occurrence, if any. */
  function IndexOf(s: string, pat: string): (r: Option<nat>)
    ensures r.Some? ==> OccursAt(s, pat, r.value)
    ensures r.Some? ==> forall j :: 0 <= j < r.value ==> !OccursAt(s, pat, j)
    ensures r.None? ==> forall j :: !OccursAt(s, pat, j)
    decreases |s|
  {
    if |s| < |pat| then None
    else if s[..|pat|] == pat then Some(0)
    else
      var rest := IndexOf(s[1..], pat);
      assert forall j :: 1 <= j ==> (OccursAt(s, pat, j) <==> OccursAt(s[1..], pat, j - 1)) by {
        forall j | 1 <= j ensures OccursAt(s, pat, j) <==> OccursAt(s[1..], pat, j - 1) {
          OccursAtTail(s, pat, j);
        }
      }
      assert !OccursAt(s, pat, 0);
      match rest
      case None => None
      case Some(k) => Some(k + 1)
  }

  /** Python `s.rfind(pat)`: the index of the last occurrence, if any. */
  function LastIndexOf(s: string, pat: string): (r: Option<nat>)
    ensures r.Some? ==> OccursAt(s, pat, r.value)
    ensures r.Some? ==> forall j :: r.value < j ==> !OccursAt(s, pat, j)
    ensures r.None? ==> forall j :: !OccursAt(s, pat, j)
    decreases |s|
  {
    if |s| < |pat| then None
    else if s[|s| - |pat|..] == pat then Some(|s| - |pat|)
    else
      var rest := LastIndexOf(s[..|s| - 1], pat);
      assert forall j :: OccursAt(s[..|s| - 1], pat, j) <==> OccursAt(s, pat, j) && j + |pat| <= |s| - 1 by {
        forall j ensures OccursAt(s[..|s| - 1], pat, j) <==> OccursAt(s, pat, j) && j + |pat| <= |s| - 1 {
          OccursAtPrefix(s, pat, |s| - 1, j);
        }
      }
      assert !OccursAt(s, pat, |s| - |pat|);
      rest
  }

  /** Python `pat in s`. */
  predicate Contains(s: string, pat: string)
  {
    IndexOf(s, pat).Some?
  }

  /** Python `s.endswith(suffix)`. */
  predicate EndsWith(s: string, suffix: string)
  {
    |suffix| <= |s| && s[|s| - |suffix|..] == suffix
  }

  /** Python `str.lower()` restricted to ASCII: only `A`-`Z` change. */
  function LowerChar(c: char): char
  {
    if 'A' <= c <= 'Z' then (c as int - 'A' as int + 'a' as int) as char else c
  }

  function Lower(s: string): string
  {
    seq(|s|, i requires 0 <= i < |s| => LowerChar(s[i]))
  }

  /** `pat` occurs in `s` at index `i` once both are compared in lower case (`pat` is). */
  predicate OccursAtIgnoringCase(s: string, pat: string, i: int)
  {
    0 <= i && i + |pat| <= |s| && Lower(s[i..i + |pat|]) == pat
  }

  /** Lower-casing commutes with taking a slice. */
  lemma LowerSlice(s: string, i: int, j: int)
    requires 0 <= i <= j <= |s|
    ensures Lower(s)[i..j] == Lower(s[i..j])
  {
  }

  /** A string that is already lower case is left alone. */
  lemma LowerFixes(s: string)
    requires forall i :: 0 <= i < |s| ==> !('A' <= s[i] <= 'Z')
    ensures Lower(s) == s
  {
  }

  /**
   * `s.split(sep)[0]`: the text before the first occurrence of `sep`,
   * or all of `s` when `sep` does not occur.
   */
  function Before(s: string, sep: string): (r: string)
    requires sep != ""
    ensures r <= s
    ensures !Contains(r, sep)
    ensures !Contains(s, sep) ==> r == s
    ensures Contains(s, sep) ==> OccursAt(s, sep, |r|)
    ensures forall j :: 0 <= j < |r| ==> !OccursAt(s, sep, j)
  {
    match IndexOf(s, sep)
    case None => s
    case Some(i) =>
      assert forall j :: !OccursAt(s[..i], sep, j) by {
        forall j ensures !OccursAt(s[..i], sep, j) { OccursAtPrefix(s, sep, i, j); }
      }
      s[..i]
  }

  /**
   * `s.split(sep, 1)[1]`: the text after the first occurrence of `sep`.
   * Unlike `split(sep)[1]` it runs to the end of `s`, past any later `sep`.
   */
  function After(s: string, sep: string): (r: string)
    requires sep != "" && Contains(s, sep)
    ensures |r| + |sep| <= |s| && r == s[|s| - |r|..]
    ensures OccursAt(s, sep, |s| - |r| - |sep|)
    ensures forall j :: 0 <= j < |s| - |r| - |sep| ==> !OccursAt(s, sep, j)
  {
    s[IndexOf(s, sep).value + |sep|..]
  }

  /**
   * `s.rsplit(sep, 1)[-1]`: the text after the last occurrence of `sep`,
   * or all of `s` when `sep` does not occur. For a separator that cannot
   * overlap itself, such as a single character, this is `s.split(sep)[-1]`.
   */
  function AfterLast(s: string, sep: string): (r: string)
    requires sep != ""
    ensures |r| <= |s| && r == s[|s| - |r|..]
    ensures !Contains(s, sep) ==> r == s
    ensures Contains(s, sep) ==> OccursAt(s, sep, |s| - |r| - |sep|) && !Contains(r, sep)
    ensures Contains(s, sep) ==> forall j :: |s| - |r| - |sep| < j ==> !OccursAt(s, sep, j)
  {
    match LastIndexOf(s, sep)
    case None => s
    case Some(i) =>
      var tail := s[i + |sep|..];
      assert forall j :: !OccursAt(tail, sep, j) by {
        forall j ensures !OccursAt(tail, sep, j) {
          if 0 <= j { OccursAtSuffix(s, sep, i + |sep|, j); }
        }
      }
      tail
  }

  /**
   * `s.rsplit(sep, 1)[0]`: the text before the last occurrence of `sep`,
   * or all of `s` when `sep` does not occur.
   */
  function BeforeLast(s: string, sep: string): (r: string)
    requires sep != ""
    ensures r <= s
    ensures !Contains(s, sep) ==> r == s
    ensures Contains(s, sep) ==> OccursAt(s, sep, |r|) && forall j :: |r| < j ==> !OccursAt(s, sep, j)
  {
    match LastIndexOf(s, sep)
    case None => s
    case Some(i) => s[..i]
  }
}
