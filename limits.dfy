/**
 * `extract_time_limit` and `extract_memory_limit` of FeatureExtractor.py:
 * the integer after the first `<phrase>` that is followed, past optional
 * whitespace, by at least one digit; `None` when there is none.
 */
module Limits {
  import opened Strings

  const TimePhrase: string := "time limit per test"
  const MemoryPhrase: string := "memory limit per test"

  /** `phrase\s*(\d+)` matched at index `p`: the digits of the group. The
      greedy `\s*` never needs to give back a character, as a whitespace
      character is no digit. */
  function LimitAt(s: string, phrase: string, p: nat): (r: Option<string>)
    requires p <= |s|
    ensures r.Some? ==> OccursAt(s, phrase, p) && r.value != [] && AllDigits(r.value)
  {
    if !OccursAt(s, phrase, p) then None
    else
      var j := Span(s, p + |phrase|, IsSpace);
      var e := Span(s, j, IsDigit);
      if e == j then None else Some(s[j..e])
  }

  /** `re.search`: the leftmost index at or after `p` where the pattern matches. */
  function SearchFrom(s: string, phrase: string, p: nat): (r: Option<nat>)
    requires p <= |s|
    ensures r.Some? ==> p <= r.value <= |s| && LimitAt(s, phrase, r.value).Some?
    ensures r.Some? ==> forall k :: p <= k < r.value ==> LimitAt(s, phrase, k).None?
    ensures r.None? ==> forall k :: p <= k <= |s| ==> LimitAt(s, phrase, k).None?
    decreases |s| - p
  {
    if LimitAt(s, phrase, p).Some? then Some(p)
    else if p == |s| then None
    else
      var r := SearchFrom(s, phrase, p + 1);
      SearchStep(s, phrase, p, r);
      r
  }

  /** A search from `p + 1` is the search from `p` when the pattern fails at `p`. */
  lemma SearchStep(s: string, phrase: string, p: nat, r: Option<nat>)
    requires p < |s| && LimitAt(s, phrase, p).None?
    requires r.Some? ==> p + 1 <= r.value <= |s| && LimitAt(s, phrase, r.value).Some?
    requires r.Some? ==> forall k :: p + 1 <= k < r.value ==> LimitAt(s, phrase, k).None?
    requires r.None? ==> forall k :: p + 1 <= k <= |s| ==> LimitAt(s, phrase, k).None?
    ensures r.Some? ==> forall k :: p <= k < r.value ==> LimitAt(s, phrase, k).None?
    ensures r.None? ==> forall k :: p <= k <= |s| ==> LimitAt(s, phrase, k).None?
  {
  }

  /** The limit after `phrase`, read as a decimal integer; without the
      phrase there is none. */
  function ExtractLimit(text: string, phrase: string): (r: Option<nat>)
    ensures r.Some? ==> Contains(text, phrase)
    ensures r.None? <==> forall k :: 0 <= k <= |text| ==> LimitAt(text, phrase, k).None?
    ensures r.Some? ==> exists p ::
      (0 <= p <= |text| && LimitAt(text, phrase, p).Some?
       && r.value == DigitsValue(LimitAt(text, phrase, p).value)
       && forall k :: 0 <= k < p ==> LimitAt(text, phrase, k).None?)
  {
    match SearchFrom(text, phrase, 0)
    case None => None
    case Some(p) => Some(DigitsValue(LimitAt(text, phrase, p).value))
  }

  function ExtractTimeLimit(text: string): Option<nat> {
    ExtractLimit(text, TimePhrase)
  }

  function ExtractMemoryLimit(text: string): Option<nat> {
    ExtractLimit(text, MemoryPhrase)
  }

  // ---------------------------------------------------------------------
  // Properties

  /** A text whose first match of the pattern is `phrase`, blanks and digits
      after some prefix yields the value of those digits. */
  lemma FirstLimit(pre: string, phrase: string, blanks: string, digits: string, rest: string)
    requires forall k :: 0 <= k < |blanks| ==> IsSpace(blanks[k])
    requires digits != [] && AllDigits(digits)
    requires rest == [] || !IsDigit(rest[0])
    requires forall k :: 0 <= k < |pre| ==> LimitAt(pre + phrase + blanks + digits + rest, phrase, k).None?
    ensures ExtractLimit(pre + phrase + blanks + digits + rest, phrase) == Some(DigitsValue(digits))
  {
    var s := pre + phrase + blanks + digits + rest;
    LimitAtPrefix(pre, phrase, blanks, digits, rest);
    assert SearchFrom(s, phrase, 0) == Some(|pre|);
  }

  /** The pattern matches right after `pre` and captures `digits`. */
  lemma LimitAtPrefix(pre: string, phrase: string, blanks: string, digits: string, rest: string)
    requires forall k :: 0 <= k < |blanks| ==> IsSpace(blanks[k])
    requires digits != [] && AllDigits(digits)
    requires rest == [] || !IsDigit(rest[0])
    ensures |pre| <= |pre + phrase + blanks + digits + rest|
    ensures LimitAt(pre + phrase + blanks + digits + rest, phrase, |pre|) == Some(digits)
  {
    var s := pre + phrase + blanks + digits + rest;
    assert s[|pre|..|pre| + |phrase|] == phrase;
    assert s[|pre| + |phrase|..|pre| + |phrase| + |blanks|] == blanks;
    assert s[|pre| + |phrase| + |blanks|..|pre| + |phrase| + |blanks| + |digits|] == digits;
    assert s[|pre| + |phrase| + |blanks| + |digits|..] == rest;
    LimitAtParts(s, phrase, |pre|, |pre| + |phrase|, |pre| + |phrase| + |blanks|,
                 |pre| + |phrase| + |blanks| + |digits|);
  }

  /** The pattern matches at `p` when `phrase` sits at `p`, blanks fill
      `s[a..b]` and digits fill `s[b..c]` up to a non-digit. */
  lemma LimitAtParts(s: string, phrase: string, p: nat, a: nat, b: nat, c: nat)
    requires p <= a <= b < c <= |s| && s[p..a] == phrase
    requires forall k :: a <= k < b ==> IsSpace(s[k])
    requires AllDigits(s[b..c]) && (c == |s| || !IsDigit(s[c]))
    ensures LimitAt(s, phrase, p) == Some(s[b..c])
  {
    assert OccursAt(s, phrase, p);
    SpanStops(s, a, b, IsSpace);
    assert forall k :: b <= k < c ==> s[k] == s[b..c][k - b];
    SpanStops(s, b, c, IsDigit);
  }
}
