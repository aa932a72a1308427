/** The string primitives of the Kotlin standard library that the core relies on:
    `lowercase(Locale.ROOT)`, `contains` (plain and `ignoreCase = true`), `indexOf`,
    `substringBefore`, `substringAfter` and `trim`. Case mapping covers ASCII letters only. */
module Text {
  import opened Wrappers

  /** `Char.lowercaseChar()` restricted to ASCII: 'A'..'Z' map to 'a'..'z', everything else is kept. */
  function LowerChar(c: char): (r: char)
    ensures 'A' <= c <= 'Z' ==> 'a' <= r <= 'z' && r as int - c as int == 32
    ensures !('A' <= c <= 'Z') ==> r == c
  {
    if 'A' <= c <= 'Z' then (c as int + 32) as char else c
  }

  /** `String.lowercase(Locale.ROOT)`, character by character. */
  function Lower(s: string): (r: string)
    ensures |r| == |s|
    ensures forall i :: 0 <= i < |s| ==> r[i] == LowerChar(s[i])
  {
    seq(|s|, i requires 0 <= i < |s| => LowerChar(s[i]))
  }

  lemma LowerAppend(a: string, b: string)
    ensures Lower(a + b) == Lower(a) + Lower(b)
  {
    assert forall i :: 0 <= i < |a + b| ==> Lower(a + b)[i] == (Lower(a) + Lower(b))[i];
  }

  /** A string without upper-case ASCII letters is its own lower case. */
  lemma LowerUnchanged(s: string)
    requires forall i :: 0 <= i < |s| ==> !('A' <= s[i] <= 'Z')
    ensures Lower(s) == s
  {
  }

  lemma LowerIdempotent(s: string)
    ensures Lower(Lower(s)) == Lower(s)
  {
  }

  /** `sub` occurs in `s` starting at index `i`. */
  predicate OccursAt(s: string, sub: string, i: int) {
    0 <= i && i + |sub| <= |s| && s[i..i + |sub|] == sub
  }

  /** `s[i + k..i + |sub|] == sub[k..]`, compared character by character. */
  predicate MatchesFrom(s: string, sub: string, i: nat, k: nat)
    requires i + |sub| <= |s| && k <= |sub|
    ensures MatchesFrom(s, sub, i, k) <==> s[i + k..i + |sub|] == sub[k..]
    decreases |sub| - k
  {
    k == |sub| || (s[i + k] == sub[k] && MatchesFrom(s, sub, i, k + 1))
  }

  /** `s.indexOf(sub, from)`: the leftmost occurrence of `sub` at or after `from`. */
  function IndexFrom(s: string, sub: string, from: nat): (r: Option<nat>)
    ensures r.Some? ==> from <= r.value && OccursAt(s, sub, r.value)
    ensures r.Some? ==> forall j :: from <= j < r.value ==> !OccursAt(s, sub, j)
    ensures r.None? ==> forall j :: from <= j ==> !OccursAt(s, sub, j)
    decreases |s| - from
  {
    if from + |sub| > |s| then None
    else if MatchesFrom(s, sub, from, 0) then Some(from)
    else IndexFrom(s, sub, from + 1)
  }

  function IndexOf(s: string, sub: string): Option<nat> {
    IndexFrom(s, sub, 0)
  }

  /** `s.contains(sub)`, which Kotlin defines as `indexOf(sub) >= 0`. */
  predicate Contains(s: string, sub: string) {
    IndexOf(s, sub).Some?
  }

  lemma ContainsIff(s: string, sub: string)
    ensures Contains(s, sub) <==> exists i :: OccursAt(s, sub, i)
  {
  }

  lemma ContainsAt(s: string, sub: string, i: int)
    requires OccursAt(s, sub, i)
    ensures Contains(s, sub)
  {
  }

  /** `w` occurs in `a + w + b` right after `a`. */
  lemma OccursInConcat(a: string, w: string, b: string)
    ensures OccursAt(a + w + b, w, |a|)
  {
    assert (a + w + b)[|a|..|a| + |w|] == w;
  }

  /** `sub` cannot occur where its first character never appears early enough. */
  lemma AbsentByFirstChar(s: string, sub: string)
    requires 0 < |sub| <= |s| && sub[0] !in s[..|s| - |sub| + 1]
    ensures !Contains(s, sub)
  {
    forall j | 0 <= j && j + |sub| <= |s| ensures !OccursAt(s, sub, j) {
      assert s[j] == s[..|s| - |sub| + 1][j];
      assert s[j..j + |sub|][0] == s[j];
    }
  }

  /** `sub` cannot occur in a string lacking one of its characters. */
  lemma AbsentByChar(s: string, sub: string, k: nat)
    requires k < |sub| && sub[k] !in s
    ensures !Contains(s, sub)
  {
    forall j | 0 <= j && j + |sub| <= |s| ensures !OccursAt(s, sub, j) {
      assert s[j..j + |sub|][k] == s[j + k];
    }
  }

  /** `s.contains(sub, ignoreCase = true)` for a lower-case `sub`. */
  predicate ContainsIgnoreCase(s: string, sub: string) {
    Contains(Lower(s), sub)
  }

  /** `s.substringBefore(delimiter)`: the text before the first occurrence, or all of `s`. */
  function SubstringBefore(s: string, delimiter: string): (r: string)
    ensures Contains(s, delimiter) ==> OccursAt(s, delimiter, |r|) && r == s[..|r|]
    ensures Contains(s, delimiter) ==> forall j :: 0 <= j < |r| ==> !OccursAt(s, delimiter, j)
    ensures !Contains(s, delimiter) ==> r == s
  {
    match IndexOf(s, delimiter)
    case None => s
    case Some(k) => s[..k]
  }

  /** `s.substringAfter(delimiter)`: the text after the first occurrence, or all of `s`. */
  function SubstringAfter(s: string, delimiter: string): (r: string)
    ensures Contains(s, delimiter) ==>
      exists k :: OccursAt(s, delimiter, k) && r == s[k + |delimiter|..] && forall j :: 0 <= j < k ==> !OccursAt(s, delimiter, j)
    ensures !Contains(s, delimiter) ==> r == s
  {
    match IndexOf(s, delimiter)
    case None => s
    case Some(k) => s[k + |delimiter|..]
  }

  /** Given the first occurrence of the delimiter, `substringBefore` is everything before it. */
  lemma SubstringBeforeFirst(s: string, delimiter: string, k: nat)
    requires OccursAt(s, delimiter, k)
    requires forall j :: 0 <= j < k ==> !OccursAt(s, delimiter, j)
    ensures SubstringBefore(s, delimiter) == s[..k]
  {
    assert Contains(s, delimiter);
  }

  /** Given the first occurrence of the delimiter, `substringAfter` is everything after it. */
  lemma SubstringAfterFirst(s: string, delimiter: string, k: nat)
    requires OccursAt(s, delimiter, k)
    requires forall j :: 0 <= j < k ==> !OccursAt(s, delimiter, j)
    ensures SubstringAfter(s, delimiter) == s[k + |delimiter|..]
  {
    assert Contains(s, delimiter);
  }

  /** Kotlin's `Char.isWhitespace()`: `Character.isWhitespace(c) || Character.isSpaceChar(c)`,
      that is the ASCII controls TAB..CR and FS..US, and the Unicode space, line and
      paragraph separators (including the no-break spaces). */
  predicate IsWhitespace(c: char) {
    || '\t' <= c <= '\r'
    || '\U{1C}' <= c <= ' '
    || c == '\U{A0}' || c == '\U{1680}'
    || '\U{2000}' <= c <= '\U{200A}'
    || c == '\U{2028}' || c == '\U{2029}' || c == '\U{202F}' || c == '\U{205F}' || c == '\U{3000}'
  }

  /** Every character of `s[lo..hi]` is whitespace. */
  predicate AllWhitespaceIn(s: string, lo: int, hi: int)
    requires 0 <= lo && hi <= |s|
  {
    forall k :: lo <= k < hi ==> IsWhitespace(s[k])
  }

  function SkipLeading(s: string, i: nat): (r: nat)
    requires i <= |s|
    ensures i <= r <= |s|
    ensures AllWhitespaceIn(s, i, r)
    ensures r < |s| ==> !IsWhitespace(s[r])
    decreases |s| - i
  {
    if i == |s| || !IsWhitespace(s[i]) then i else SkipLeading(s, i + 1)
  }

  function SkipTrailing(s: string, lo: nat, j: nat): (r: nat)
    requires lo <= j <= |s|
    ensures lo <= r <= j
    ensures AllWhitespaceIn(s, r, j)
    ensures r > lo ==> !IsWhitespace(s[r - 1])
    decreases j
  {
    if j == lo || !IsWhitespace(s[j - 1]) then j else SkipTrailing(s, lo, j - 1)
  }

  /** The bounds `[lo, hi)` that `trim()` keeps. */
  function TrimRange(s: string): (b: (nat, nat))
    ensures b.0 <= b.1 <= |s|
    ensures AllWhitespaceIn(s, 0, b.0) && AllWhitespaceIn(s, b.1, |s|)
    ensures b.0 < b.1 ==> !IsWhitespace(s[b.0]) && !IsWhitespace(s[b.1 - 1])
  {
    var lo := SkipLeading(s, 0);
    (lo, SkipTrailing(s, lo, |s|))
  }

  /** `String.trim()`: drops leading and trailing whitespace. */
  function Trim(s: string): string {
    var b := TrimRange(s);
    s[b.0..b.1]
  }

  /** Trim is characterised by its result: any slice whose surroundings are all whitespace
      and whose own ends are not (or that is empty) is the trimmed string. */
  lemma TrimUnique(s: string, lo: nat, hi: nat)
    requires lo <= hi <= |s|
    requires AllWhitespaceIn(s, 0, lo) && AllWhitespaceIn(s, hi, |s|)
    requires lo < hi ==> !IsWhitespace(s[lo]) && !IsWhitespace(s[hi - 1])
    ensures Trim(s) == s[lo..hi]
  {
  }

  lemma TrimIdempotent(s: string)
    ensures Trim(Trim(s)) == Trim(s)
  {
    var t := Trim(s);
    TrimUnique(t, 0, |t|);
  }
}
