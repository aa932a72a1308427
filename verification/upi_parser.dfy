/** `UpiParser`: the package allow-list and the classifier that turns a notification's
    title and text into an amount in paise, or nothing.

    The amount pattern `(?i)(?:rs\.?|rup(?:ees?)?|inr|₹|INR)\s*[:\-]?\s*([\d,]+(?:\.\d{1,2})?)`
    is replaced by a greedy scanner (`MatchAt`, `Find`). Greedy choices are the ones the
    backtracking matcher commits to: the optional `.`, `e` and `s` of a currency marker can
    never begin the separator or the number, so the longest marker is always the one that
    succeeds, and the same holds for the whitespace runs and the number itself.
    `ReadsAt` states the pattern declaratively and the lemmas `MatchAtSound` and
    `MatchAtComplete` relate the two. */
module UpiParser {
  import opened Wrappers
  import opened Text
  import opened Decimal

  // ---------------------------------------------------------------- package allow-list

  const PkgGPay := "com.google.android.apps.nbu.paisa.user"
  const PkgPhonePe := "com.phonepe.app"
  const PkgPaytm := "net.one97.paytm"
  const PkgBhim := "in.org.npci.upiapp"

  const SupportedPackages: set<string> := {PkgGPay, PkgPhonePe, PkgPaytm, PkgBhim}

  predicate IsSupportedPackage(packageName: string)
    ensures IsSupportedPackage(packageName) <==>
      packageName == PkgGPay || packageName == PkgPhonePe || packageName == PkgPaytm || packageName == PkgBhim
  {
    packageName in SupportedPackages
  }

  // ---------------------------------------------------------------- keyword filters

  /** Any of these marks a notification that must not be announced. */
  const RejectionWords: seq<string> := ["failed", "request", "declined", "refund", "cashback", "otp"]

  /** One of these must be present for a notification to count as a credit. */
  const CreditWords: seq<string> := ["received", "credited", "sent you", "paid you"]

  predicate ContainsAny(text: string, words: seq<string>) {
    exists k :: 0 <= k < |words| && Contains(text, words[k])
  }

  // ---------------------------------------------------------------- the amount pattern

  /** Java's `\s` (ASCII): space, tab, newline, vertical tab, form feed, carriage return. */
  predicate IsRegexSpace(c: char) {
    c == ' ' || c == '\t' || c == '\n' || c == '\U{0B}' || c == '\U{0C}' || c == '\r'
  }

  /** A character of the `[\d,]+` run. */
  predicate IsRunChar(c: char) {
    IsDigit(c) || c == ','
  }

  /** The currency markers the alternation can match in lower-cased text. */
  const Markers: seq<string> := ["rs.", "rs", "rupees", "rupee", "rup", "inr", "₹"]

  predicate AllSpaceIn(t: string, lo: int, hi: int)
    requires 0 <= lo && hi <= |t|
  {
    forall k :: lo <= k < hi ==> IsRegexSpace(t[k])
  }

  predicate AllRunIn(t: string, lo: int, hi: int)
    requires 0 <= lo && hi <= |t|
  {
    forall k :: lo <= k < hi ==> IsRunChar(t[k])
  }

  /** `t[p..e]` is the optional `(?:\.\d{1,2})`. */
  predicate IsFractionAt(t: string, p: int, e: int)
    requires 0 <= p <= e <= |t|
  {
    e == p || ((e == p + 2 || e == p + 3) && t[p] == '.' && forall k :: p < k < e ==> IsDigit(t[k]))
  }

  /** One way for the pattern to match `t` at `i`: the marker `t[i..markerEnd]`, spaces,
      an optional ':' or '-' in `t[sepStart..sepEnd]`, spaces, then the captured group
      `t[runStart..tokenEnd]` made of a digit-and-comma run and an optional fraction. */
  datatype Reading = Reading(markerEnd: nat, sepStart: nat, sepEnd: nat, runStart: nat, runEnd: nat, tokenEnd: nat)

  ghost predicate ReadsAt(t: string, i: nat, m: Reading) {
    && i < m.markerEnd <= m.sepStart <= m.sepEnd <= m.runStart < m.runEnd <= m.tokenEnd <= |t|
    && t[i..m.markerEnd] in Markers
    && AllSpaceIn(t, m.markerEnd, m.sepStart)
    && (m.sepEnd == m.sepStart || (m.sepEnd == m.sepStart + 1 && (t[m.sepStart] == ':' || t[m.sepStart] == '-')))
    && AllSpaceIn(t, m.sepEnd, m.runStart)
    && AllRunIn(t, m.runStart, m.runEnd)
    && IsFractionAt(t, m.runEnd, m.tokenEnd)
  }

  /** The captured group of a reading cannot be extended: the run stops at a character
      outside `[\d,]`, and the fraction takes every digit it is allowed to. */
  ghost predicate Greedy(t: string, m: Reading)
    requires m.runEnd <= m.tokenEnd <= |t|
  {
    && (m.runEnd == |t| || !IsRunChar(t[m.runEnd]))
    && (m.tokenEnd == m.runEnd ==> !(m.runEnd + 1 < |t| && t[m.runEnd] == '.' && IsDigit(t[m.runEnd + 1])))
    && (m.tokenEnd == m.runEnd + 2 ==> !(m.tokenEnd < |t| && IsDigit(t[m.tokenEnd])))
  }

  /** `w` occurs in `t` at `i`, compared character by character. */
  predicate HasAt(t: string, w: string, i: nat)
    ensures HasAt(t, w, i) <==> OccursAt(t, w, i)
  {
    i + |w| <= |t| && MatchesFrom(t, w, i, 0)
  }

  /** The end of the longest currency marker at `i`, if one starts there. */
  function MarkerEnd(t: string, i: nat): (r: Option<nat>)
    requires i <= |t|
    ensures r.Some? ==> i < r.value <= |t| && t[i..r.value] in Markers
  {
    if HasAt(t, "rs.", i) then Some(i + 3)
    else if HasAt(t, "rs", i) then Some(i + 2)
    else if HasAt(t, "rupees", i) then Some(i + 6)
    else if HasAt(t, "rupee", i) then Some(i + 5)
    else if HasAt(t, "rup", i) then Some(i + 3)
    else if HasAt(t, "inr", i) then Some(i + 3)
    else if HasAt(t, "₹", i) then Some(i + 1)
    else None
  }

  function SkipSpaces(t: string, k: nat): (r: nat)
    requires k <= |t|
    ensures k <= r <= |t| && AllSpaceIn(t, k, r)
    ensures r < |t| ==> !IsRegexSpace(t[r])
    decreases |t| - k
  {
    if k < |t| && IsRegexSpace(t[k]) then SkipSpaces(t, k + 1) else k
  }

  function SkipRun(t: string, k: nat): (r: nat)
    requires k <= |t|
    ensures k <= r <= |t| && AllRunIn(t, k, r)
    ensures r < |t| ==> !IsRunChar(t[r])
    decreases |t| - k
  {
    if k < |t| && IsRunChar(t[k]) then SkipRun(t, k + 1) else k
  }

  /** The end of the longest `(?:\.\d{1,2})?` at `p`. */
  function FractionEnd(t: string, p: nat): (e: nat)
    requires p <= |t|
  {
    if p + 1 < |t| && t[p] == '.' && IsDigit(t[p + 1]) then
      if p + 2 < |t| && IsDigit(t[p + 2]) then p + 3 else p + 2
    else p
  }

  /** The span of the captured group: `t[start..end]`, whose digit-and-comma run ends at `runEnd`. */
  datatype Span = Span(start: nat, runEnd: nat, end: nat)

  /** The greedy attempt of the pattern at position `i`. */
  function MatchAt(t: string, i: nat): (r: Option<Span>)
    requires i <= |t|
    ensures r.Some? ==> i < r.value.start < r.value.runEnd <= r.value.end <= |t|
    ensures r.Some? ==> AllRunIn(t, r.value.start, r.value.runEnd) && IsFractionAt(t, r.value.runEnd, r.value.end)
  {
    match MarkerEnd(t, i)
    case None => None
    case Some(a) =>
      var b := SkipSpaces(t, a);
      var c := if b < |t| && (t[b] == ':' || t[b] == '-') then b + 1 else b;
      var d := SkipSpaces(t, c);
      var p := SkipRun(t, d);
      if p == d then None else Some(Span(d, p, FractionEnd(t, p)))
  }

  /** Whatever the scanner returns is a reading of the pattern whose group cannot be extended. */
  lemma MatchAtSound(t: string, i: nat) returns (m: Reading)
    requires i <= |t| && MatchAt(t, i).Some?
    ensures ReadsAt(t, i, m) && Greedy(t, m)
    ensures MatchAt(t, i).value == Span(m.runStart, m.runEnd, m.tokenEnd)
  {
    var a := MarkerEnd(t, i).value;
    var b := SkipSpaces(t, a);
    var c := if b < |t| && (t[b] == ':' || t[b] == '-') then b + 1 else b;
    var d := SkipSpaces(t, c);
    var p := SkipRun(t, d);
    m := Reading(a, b, c, d, p, FractionEnd(t, p));
  }

  /** `w` is not at `i` when one of its characters is missing there. */
  lemma NotAt(t: string, w: string, i: nat, k: nat)
    requires k < |w| && (i + k >= |t| || t[i + k] != w[k])
    ensures !HasAt(t, w, i)
  {
  }

  /** A marker followed by a character that can continue the pattern is found whole:
      the shorter markers are only ever tried when the longer one cannot be there. */
  lemma MarkerEndGreedy(t: string, i: nat, e: nat)
    requires i < e < |t| && t[i..e] in Markers
    requires IsRegexSpace(t[e]) || t[e] == ':' || t[e] == '-' || IsRunChar(t[e])
    ensures MarkerEnd(t, i) == Some(e)
  {
    var w := t[i..e];
    assert HasAt(t, w, i);
    assert t[e] != '.' && t[e] != 'e' && t[e] != 's';
    if w == "rs." {
    } else if w == "rs" {
      assert t[i + 2] == t[e];
      NotAt(t, "rs.", i, 2);
    } else if w == "rupees" || w == "rupee" || w == "rup" {
      assert t[i + 1] == w[1];
      NotAt(t, "rs.", i, 1);
      NotAt(t, "rs", i, 1);
      if w == "rupee" {
        assert t[i + 5] == t[e];
        NotAt(t, "rupees", i, 5);
      } else if w == "rup" {
        assert t[i + 3] == t[e];
        NotAt(t, "rupees", i, 3);
        NotAt(t, "rupee", i, 3);
      }
    } else {
      assert t[i] == w[0];
      NotAt(t, "rs.", i, 0);
      NotAt(t, "rs", i, 0);
      NotAt(t, "rupees", i, 0);
      NotAt(t, "rupee", i, 0);
      NotAt(t, "rup", i, 0);
      if w == "₹" {
        NotAt(t, "inr", i, 0);
      }
    }
  }

  /** The character right after a reading's marker can continue the pattern. */
  lemma AfterMarker(t: string, i: nat, m: Reading)
    requires ReadsAt(t, i, m)
    ensures IsRegexSpace(t[m.markerEnd]) || t[m.markerEnd] == ':' || t[m.markerEnd] == '-' || IsRunChar(t[m.markerEnd])
  {
    var e := m.markerEnd;
    if e < m.sepStart {
    } else if e < m.sepEnd {
    } else if e < m.runStart {
    } else {
      assert IsRunChar(t[m.runStart]);
    }
  }

  /** Skipping spaces from `k` stops at the first non-space `j`. */
  lemma {:induction false} SkipSpacesTo(t: string, k: nat, j: nat)
    requires k <= j <= |t| && AllSpaceIn(t, k, j) && (j == |t| || !IsRegexSpace(t[j]))
    ensures SkipSpaces(t, k) == j
    decreases j - k
  {
    if k < j {
      SkipSpacesTo(t, k + 1, j);
    }
  }

  /** Skipping the run from `k` goes at least past a run ending at `j`. */
  lemma {:induction false} SkipRunPast(t: string, k: nat, j: nat)
    requires k <= j <= |t| && AllRunIn(t, k, j)
    ensures j <= SkipRun(t, k)
    ensures !(j < |t| && IsRunChar(t[j])) ==> SkipRun(t, k) == j
    decreases j - k
  {
    if k < j {
      SkipRunPast(t, k + 1, j);
    }
  }

  /** Every reading of the pattern at `i` is found by the scanner, which captures from the
      same position and never a shorter group. */
  lemma MatchAtComplete(t: string, i: nat, m: Reading)
    requires ReadsAt(t, i, m)
    ensures MatchAt(t, i).Some?
    ensures MatchAt(t, i).value.start == m.runStart && m.tokenEnd <= MatchAt(t, i).value.end
  {
    AfterMarker(t, i, m);
    MarkerEndGreedy(t, i, m.markerEnd);
    assert IsRunChar(t[m.runStart]);
    var b := if m.sepEnd == m.sepStart then m.runStart else m.sepStart;
    SkipSpacesTo(t, m.markerEnd, b);
    var c := if b < |t| && (t[b] == ':' || t[b] == '-') then b + 1 else b;
    SkipSpacesTo(t, c, m.runStart);
    SkipRunPast(t, m.runStart, m.runEnd);
    var p := SkipRun(t, m.runStart);
    if m.tokenEnd > m.runEnd {
      assert p == m.runEnd;
    }
  }

  /** `matcher.find()`: the leftmost position at or after `i` where the pattern matches. */
  function Find(t: string, i: nat): (r: Option<nat>)
    requires i <= |t|
    ensures r.Some? ==> i <= r.value <= |t| && MatchAt(t, r.value).Some?
    ensures r.Some? ==> forall k :: i <= k < r.value ==> MatchAt(t, k).None?
    ensures r.None? ==> forall k :: i <= k <= |t| ==> MatchAt(t, k).None?
    decreases |t| - i
  {
    var here := MatchAt(t, i);
    if here.Some? then Some(i)
    else if i == |t| then None
    else
      Find(t, i + 1)
  }

  // ---------------------------------------------------------------- the number

  /** `replace(",", "")`. */
  function StripCommas(s: string): (r: string)
    ensures forall k :: 0 <= k < |r| ==> r[k] != ','
    ensures |r| <= |s|
  {
    if |s| == 0 then "" else (if s[0] == ',' then "" else [s[0]]) + StripCommas(s[1..])
  }

  /** Every character other than a comma is kept as often as it occurs; together with
      `StripCommasAppend` and `StripCommasKeeps` this fixes the result. */
  lemma {:induction false} StripCommasCounts(s: string)
    ensures multiset(StripCommas(s)) == multiset(s)[',' := 0]
  {
    if |s| > 0 {
      StripCommasCounts(s[1..]);
      assert s == [s[0]] + s[1..];
    }
  }

  lemma {:induction false} StripCommasAppend(a: string, b: string)
    ensures StripCommas(a + b) == StripCommas(a) + StripCommas(b)
  {
    if |a| == 0 {
      assert a + b == b;
    } else {
      assert (a + b)[0] == a[0];
      assert (a + b)[1..] == a[1..] + b;
      StripCommasAppend(a[1..], b);
    }
  }

  lemma {:induction false} StripCommasOfRun(s: string)
    requires forall k :: 0 <= k < |s| ==> IsRunChar(s[k])
    ensures AllDigits(StripCommas(s))
  {
    if |s| > 0 {
      StripCommasOfRun(s[1..]);
    }
  }

  lemma {:induction false} StripCommasKeeps(s: string)
    requires forall k :: 0 <= k < |s| ==> s[k] != ','
    ensures StripCommas(s) == s
  {
    if |s| > 0 {
      StripCommasKeeps(s[1..]);
    }
  }

  predicate IsFraction(f: string) {
    |f| == 0 || (2 <= |f| <= 3 && f[0] == '.' && AllDigits(f[1..]))
  }

  /** The paise a fraction `""`, `".d"` or `".dd"` stands for. */
  function FractionPaise(f: string): (p: nat)
    requires IsFraction(f)
    ensures p < 100
  {
    if |f| == 0 then 0
    else if |f| == 2 then 10 * DigitValue(f[1])
    else 10 * DigitValue(f[1]) + DigitValue(f[2])
  }

  /** Where the integer part of a decimal string ends. */
  function PointIndex(s: string): (k: nat)
    ensures k <= |s|
  {
    match IndexOf(s, ".")
    case None => |s|
    case Some(k) => k
  }

  /** The strings comma stripping can leave of a captured group: `\d*(?:\.\d{1,2})?`. */
  predicate IsPlainDecimal(s: string) {
    AllDigits(s[..PointIndex(s)]) && IsFraction(s[PointIndex(s)..])
  }

  /** `toDoubleOrNull()` on a plain decimal string, in paise: null exactly for the empty string
      (".5" is a valid Java floating-point literal). */
  function ToPaise(s: string): (r: Option<nat>)
    requires IsPlainDecimal(s)
    ensures r.None? <==> |s| == 0
  {
    if |s| == 0 then None
    else Some(DigitsValue(s[..PointIndex(s)]) * 100 + FractionPaise(s[PointIndex(s)..]))
  }

  /** A string of digits followed by a fraction splits at the point. */
  lemma PointIndexSplit(a: string, f: string)
    requires AllDigits(a) && IsFraction(f)
    ensures PointIndex(a + f) == |a|
  {
    var s := a + f;
    if |f| > 0 {
      assert OccursAt(s, ".", |a|);
      assert forall j :: 0 <= j < |a| ==> !OccursAt(s, ".", j) by {
        forall j | 0 <= j < |a| ensures !OccursAt(s, ".", j) {
          assert s[j] == a[j];
        }
      }
    } else {
      assert forall j :: 0 <= j ==> !OccursAt(s, ".", j) by {
        forall j | 0 <= j ensures !OccursAt(s, ".", j) {
          if j < |s| { assert s[j] == a[j]; }
        }
      }
    }
  }

  lemma PlainDecimalOf(a: string, f: string)
    requires AllDigits(a) && IsFraction(f)
    ensures IsPlainDecimal(a + f)
    ensures (a + f)[..PointIndex(a + f)] == a && (a + f)[PointIndex(a + f)..] == f
  {
    PointIndexSplit(a, f);
  }

  /** The captured group, commas removed, is a plain decimal. */
  lemma GroupIsPlainDecimal(t: string, sp: Span)
    requires sp.start <= sp.runEnd <= sp.end <= |t|
    requires AllRunIn(t, sp.start, sp.runEnd) && IsFractionAt(t, sp.runEnd, sp.end)
    ensures IsPlainDecimal(StripCommas(t[sp.start..sp.end]))
    ensures StripCommas(t[sp.start..sp.end]) == StripCommas(t[sp.start..sp.runEnd]) + t[sp.runEnd..sp.end]
  {
    var run := t[sp.start..sp.runEnd];
    var frac := t[sp.runEnd..sp.end];
    assert t[sp.start..sp.end] == run + frac;
    assert IsFraction(frac);
    StripGroup(run, frac);
  }

  lemma StripGroup(run: string, frac: string)
    requires forall k :: 0 <= k < |run| ==> IsRunChar(run[k])
    requires IsFraction(frac)
    ensures IsPlainDecimal(StripCommas(run + frac))
    ensures StripCommas(run + frac) == StripCommas(run) + frac
  {
    StripCommasAppend(run, frac);
    StripCommasKeeps(frac);
    StripCommasOfRun(run);
    PlainDecimalOf(StripCommas(run), frac);
  }

  /** The value of the captured group `t[sp.start..sp.end]`. */
  function GroupPaise(t: string, sp: Span): Option<nat>
    requires sp.start <= sp.runEnd <= sp.end <= |t|
    requires AllRunIn(t, sp.start, sp.runEnd) && IsFractionAt(t, sp.runEnd, sp.end)
  {
    GroupIsPlainDecimal(t, sp);
    ToPaise(StripCommas(t[sp.start..sp.end]))
  }

  // ---------------------------------------------------------------- the classifier

  /** The text the classifier looks at: `"${title ?: ""} ${content ?: ""}".lowercase()`. */
  function FullText(title: Option<string>, content: Option<string>): string {
    Lower(title.GetOr("") + " " + content.GetOr(""))
  }

  /** The decision on an already lower-cased text. */
  function Classify(text: string): Option<nat> {
    if ContainsAny(text, RejectionWords) then None
    else if !ContainsAny(text, CreditWords) then None
    else match Find(text, 0)
      case None => None
      case Some(i) => GroupPaise(text, MatchAt(text, i).value)
  }

  /** `parseAmount`: the credited amount in paise, or None. Total for every pair of inputs. */
  function ParseAmount(title: Option<string>, content: Option<string>): Option<nat> {
    Classify(FullText(title, content))
  }

  // ---------------------------------------------------------------- properties

  /** Only the lower-cased combined text matters: inputs that agree up to letter case,
      with an absent field read as "", give the same result. */
  lemma ParseAmountIgnoresCase(t1: Option<string>, c1: Option<string>, t2: Option<string>, c2: Option<string>)
    requires Lower(t1.GetOr("")) == Lower(t2.GetOr("")) && Lower(c1.GetOr("")) == Lower(c2.GetOr(""))
    ensures ParseAmount(t1, c1) == ParseAmount(t2, c2)
  {
    LowerAppend(t1.GetOr("") + " ", c1.GetOr(""));
    LowerAppend(t1.GetOr(""), " ");
    LowerAppend(t2.GetOr("") + " ", c2.GetOr(""));
    LowerAppend(t2.GetOr(""), " ");
  }

  /** A rejection word wins over everything else, a credit word and a valid amount included. */
  lemma RejectionWins(title: Option<string>, content: Option<string>, k: nat)
    requires k < |RejectionWords| && Contains(FullText(title, content), RejectionWords[k])
    ensures ParseAmount(title, content).None?
  {
  }

  /** Without a rejection word, a text with no credit word is not a payment. */
  lemma CreditWordRequired(title: Option<string>, content: Option<string>)
    requires forall k :: 0 <= k < |CreditWords| ==> !Contains(FullText(title, content), CreditWords[k])
    ensures ParseAmount(title, content).None?
  {
  }

  /** No reading of the pattern starts before the position `Find` reports. */
  lemma NoEarlierReading(t: string, i: nat)
    requires Find(t, 0) == Some(i)
    ensures forall k: nat, m: Reading :: k < i ==> !ReadsAt(t, k, m)
  {
    forall k: nat, m: Reading | k < i && ReadsAt(t, k, m) ensures false {
      MatchAtComplete(t, k, m);
    }
  }

  /** A result is always the value of the leftmost reading of the amount pattern, taken
      greedily, in a text with no rejection word and some credit word. */
  lemma ClassifySound(text: string) returns (i: nat, m: Reading)
    requires Classify(text).Some?
    ensures !ContainsAny(text, RejectionWords) && ContainsAny(text, CreditWords)
    ensures ReadsAt(text, i, m) && Greedy(text, m)
    ensures forall k: nat, m': Reading :: k < i ==> !ReadsAt(text, k, m')
    ensures Classify(text) == GroupPaise(text, Span(m.runStart, m.runEnd, m.tokenEnd))
  {
    i := Find(text, 0).value;
    m := MatchAtSound(text, i);
    NoEarlierReading(text, i);
  }

  lemma ParseAmountSound(title: Option<string>, content: Option<string>) returns (i: nat, m: Reading)
    requires ParseAmount(title, content).Some?
    ensures var text := FullText(title, content);
      && !ContainsAny(text, RejectionWords) && ContainsAny(text, CreditWords)
      && ReadsAt(text, i, m) && Greedy(text, m)
      && (forall k: nat, m': Reading :: k < i ==> !ReadsAt(text, k, m'))
      && ParseAmount(title, content) == GroupPaise(text, Span(m.runStart, m.runEnd, m.tokenEnd))
  {
    i, m := ClassifySound(FullText(title, content));
  }

  /** Conversely, once the keyword filters pass, any reading of the pattern means a match is
      found no later than it; the result is then absent only when the leftmost group holds
      nothing but commas, and later readings are not tried. */
  lemma ParseAmountComplete(title: Option<string>, content: Option<string>, i: nat, m: Reading)
    requires !ContainsAny(FullText(title, content), RejectionWords)
    requires ContainsAny(FullText(title, content), CreditWords)
    requires ReadsAt(FullText(title, content), i, m)
    ensures var text := FullText(title, content);
      && Find(text, 0).Some? && Find(text, 0).value <= i
      && var sp := MatchAt(text, Find(text, 0).value).value;
         (ParseAmount(title, content).None? <==> StripCommas(text[sp.start..sp.end]) == "")
  {
    var text := FullText(title, content);
    MatchAtComplete(text, i, m);
    var j := Find(text, 0).value;
    var sp := MatchAt(text, j).value;
    GroupIsPlainDecimal(text, sp);
  }
}
