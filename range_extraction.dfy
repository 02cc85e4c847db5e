/**
 * `extract_variable_ranges` of FeatureExtractor.py: finds `low ≤ vars ≤ high`
 * constraints in a statement and keeps one `(low, high, size)` per known
 * variable, the last match winning.
 *
 * The scanner reproduces `re.finditer` for the one pattern of line 41,
 *   (-?\s*[\d.,eE^*·⋅]+)\s*[≤<=]\s*([a-z](?:\s*,?\s*[a-z])*)\s*[≤<=]\s*(-?\s*[\d.,eE^*·⋅]+)
 * with IGNORECASE. For this pattern backtracking never changes the outcome:
 * every repetition is followed by a character its own class excludes, so
 * each group is the maximal run the greedy pass takes, and a shorter list of
 * variables is always followed by `,` or a letter, never by a relation.
 *
 * The bounds are read by `parse_number` (NumberParsing.ParseNumber), which
 * the scanner receives as a function value: nothing here depends on how a
 * numeral is read, only on whether it was.
 */
module RangeExtraction {
  import opened Strings

  /** The reader of a bound: an integer, or `None` for the exception the caller catches. */
  type Parser = string -> Option<int>

  /** One stored constraint: the bounds and `high - low + 1`. */
  datatype Range = Range(low: int, high: int, size: int)

  /** The three groups of one match. */
  datatype RangeMatch = RangeMatch(lowRaw: string, varsRaw: string, highRaw: string)

  /** The outcome of trying the pattern at one start: the match and where it ends. */
  datatype Scan = NoMatch | Matched(m: RangeMatch, end: nat)

  /** The class `[\d.,eE^*·⋅]`. */
  predicate IsNumeralChar(c: char) {
    IsDigit(c) || c == '.' || c == ',' || c == 'e' || c == 'E' || c == '^' || c == '*'
    || c == '\U{00B7}' || c == '\U{22C5}'
  }

  /** The class `[≤<=]`. */
  predicate IsRelation(c: char) { c == '\U{2264}' || c == '<' || c == '=' }

  predicate IsVarListChar(c: char) { IsAsciiLetter(c) || IsSpace(c) || c == ',' }

  /** A character a bound group may hold: the sign, blanks after it, numeral characters. */
  predicate IsNumeralPart(c: char) { c == '-' || IsSpace(c) || IsNumeralChar(c) }

  lemma SliceChars(s: string, i: nat, j: nat, P: char -> bool)
    requires i <= j <= |s|
    requires forall k :: i <= k < j ==> P(s[k])
    ensures forall k :: 0 <= k < j - i ==> P(s[i..j][k])
  {
  }

  /** What the groups of any match look like. */
  predicate WellFormed(m: RangeMatch) {
    && m.lowRaw != [] && m.highRaw != []
    && (forall k :: 0 <= k < |m.lowRaw| ==> IsNumeralPart(m.lowRaw[k]))
    && (forall k :: 0 <= k < |m.highRaw| ==> IsNumeralPart(m.highRaw[k]))
    && m.varsRaw != [] && IsAsciiLetter(m.varsRaw[0]) && IsAsciiLetter(m.varsRaw[|m.varsRaw| - 1])
    && (forall k :: 0 <= k < |m.varsRaw| ==> IsVarListChar(m.varsRaw[k]))
  }

  lemma GroupsWellFormed(s: string, p: nat, e1: nat, v0: nat, v1: nat, h0: nat, e2: nat)
    requires p < e1 <= |s| && v0 < v1 <= |s| && h0 < e2 <= |s|
    requires forall k :: p <= k < e1 ==> IsNumeralPart(s[k])
    requires forall k :: h0 <= k < e2 ==> IsNumeralPart(s[k])
    requires IsAsciiLetter(s[v0]) && IsAsciiLetter(s[v1 - 1])
    requires forall k :: v0 + 1 <= k < v1 ==> IsVarListChar(s[k])
    ensures WellFormed(RangeMatch(s[p..e1], s[v0..v1], s[h0..e2]))
  {
    SliceChars(s, p, e1, IsNumeralPart);
    SliceChars(s, v0, v1, IsVarListChar);
    SliceChars(s, h0, e2, IsNumeralPart);
  }

  // ---------------------------------------------------------------------
  // The scanner

  /** `-?\s*[\d.,eE^*·⋅]+` from index `i`: where the numeral ends. */
  function NumeralEnd(s: string, i: nat): (r: Option<nat>)
    requires i <= |s|
    ensures r.Some? ==> i < r.value <= |s|
    ensures r.Some? ==> forall k :: i <= k < r.value ==> IsNumeralPart(s[k])
  {
    var j := if i < |s| && s[i] == '-' then i + 1 else i;
    var k := Span(s, j, IsSpace);
    var e := Span(s, k, IsNumeralChar);
    if e == k then None else Some(e)
  }

  /** `\s*[≤<=]\s*` from index `i`: where the next group starts. */
  function RelationEnd(s: string, i: nat): (r: Option<nat>)
    requires i <= |s|
    ensures r.Some? ==> i < r.value <= |s|
  {
    var j := Span(s, i, IsSpace);
    if j < |s| && IsRelation(s[j]) then Some(Span(s, j + 1, IsSpace)) else None
  }

  /** `(?:\s*,?\s*[a-z])*` after the letter at index `n`, repeated as often
      as it matches: where the variable list ends. */
  function VarsEnd(s: string, n: nat): (e: nat)
    requires n < |s| && IsAsciiLetter(s[n])
    ensures n < e <= |s| && IsAsciiLetter(s[e - 1])
    ensures forall k :: n <= k < e ==> IsVarListChar(s[k])
    decreases |s| - n
  {
    match NextVar(s, n + 1)
    case None => n + 1
    case Some(m) => VarsEnd(s, m)
  }

  /** One iteration `\s*,?\s*[a-z]` from index `i`: where its letter is. */
  function NextVar(s: string, i: nat): (r: Option<nat>)
    requires i <= |s|
    ensures r.Some? ==> i <= r.value < |s| && IsAsciiLetter(s[r.value])
    ensures r.Some? ==> forall k :: i <= k < r.value ==> IsVarListChar(s[k])
  {
    var j := Span(s, i, IsSpace);
    var j' := if j < |s| && s[j] == ',' then j + 1 else j;
    var k := Span(s, j', IsSpace);
    if k < |s| && IsAsciiLetter(s[k]) then Some(k) else None
  }

  /** The match that starts at index `p`, if one does, and where it ends. */
  function MatchAt(s: string, p: nat): (r: Scan)
    requires p <= |s|
    ensures r.Matched? ==> p < r.end <= |s| && WellFormed(r.m)
  {
    match NumeralEnd(s, p)
    case None => NoMatch
    case Some(e1) => MatchAfterLow(s, p, e1)
  }

  /** The rest of a match whose first group is `s[p..e1]`. */
  function MatchAfterLow(s: string, p: nat, e1: nat): (r: Scan)
    requires p < e1 <= |s|
    requires forall k :: p <= k < e1 ==> IsNumeralPart(s[k])
    ensures r.Matched? ==> e1 < r.end <= |s| && WellFormed(r.m)
  {
    match VarsStart(s, e1)
    case None => NoMatch
    case Some(v0) => MatchFromVars(s, p, e1, v0)
  }

  /** The rest of a match whose first group is `s[p..e1]` and whose variable
      list starts with the letter at `v0`. */
  function MatchFromVars(s: string, p: nat, e1: nat, v0: nat): (r: Scan)
    requires p < e1 <= v0 < |s| && IsAsciiLetter(s[v0])
    requires forall k :: p <= k < e1 ==> IsNumeralPart(s[k])
    ensures r.Matched? ==> e1 < r.end <= |s| && WellFormed(r.m)
  {
    MatchAfterVars(s, p, e1, v0, VarsEnd(s, v0))
  }

  /** `\s*[≤<=]\s*` from `i` followed by a letter: where that letter is. */
  function VarsStart(s: string, i: nat): (r: Option<nat>)
    requires i <= |s|
    ensures r.Some? ==> i < r.value < |s| && IsAsciiLetter(s[r.value])
  {
    var r1 := RelationEnd(s, i);
    if r1.Some? && r1.value < |s| && IsAsciiLetter(s[r1.value]) then r1 else None
  }

  /** The rest of a match whose first two groups are `s[p..e1]` and `s[v0..v1]`. */
  function MatchAfterVars(s: string, p: nat, e1: nat, v0: nat, v1: nat): (r: Scan)
    requires p < e1 <= v0 < v1 <= |s|
    requires forall k :: p <= k < e1 ==> IsNumeralPart(s[k])
    requires IsAsciiLetter(s[v0]) && IsAsciiLetter(s[v1 - 1])
    requires forall k :: v0 + 1 <= k < v1 ==> IsVarListChar(s[k])
    ensures r.Matched? ==> v1 < r.end <= |s| && WellFormed(r.m)
  {
    match RelationEnd(s, v1)
    case None => NoMatch
    case Some(h0) =>
      match NumeralEnd(s, h0)
      case None => NoMatch
      case Some(e2) =>
        GroupsWellFormed(s, p, e1, v0, v1, h0, e2);
        Matched(RangeMatch(s[p..e1], s[v0..v1], s[h0..e2]), e2)
  }

  /** The match that would start at each index of `s`. The pattern has no
      look-behind, so what matches from a start does not depend on where
      the previous match ended. */
  function Scans(s: string): (scans: seq<Scan>)
    ensures |scans| == |s| && Consistent(scans)
  {
    seq(|s|, k requires 0 <= k < |s| => MatchAt(s, k))
  }

  /** Every match in the table ends after its start, within the text, and
      has well-formed groups. */
  predicate Consistent(scans: seq<Scan>) {
    forall k :: 0 <= k < |scans| && scans[k].Matched? ==>
      k < scans[k].end <= |scans| && WellFormed(scans[k].m)
  }

  /** `pattern.finditer(s)` from index `p`, given the match at each start:
      try each start in turn, and after a match continue where it ended. */
  function MatchesFrom(scans: seq<Scan>, p: nat): (ms: seq<RangeMatch>)
    requires Consistent(scans) && p <= |scans|
    ensures forall k :: 0 <= k < |ms| ==> WellFormed(ms[k])
    decreases |scans| - p
  {
    if p == |scans| then []
    else match scans[p]
      case Matched(m, e) => ConsWellFormed(m, MatchesFrom(scans, e)); [m] + MatchesFrom(scans, e)
      case NoMatch => MatchesFrom(scans, p + 1)
  }

  lemma ConsWellFormed(m: RangeMatch, rest: seq<RangeMatch>)
    requires WellFormed(m) && forall k :: 0 <= k < |rest| ==> WellFormed(rest[k])
    ensures forall k :: 0 <= k < |[m] + rest| ==> WellFormed(([m] + rest)[k])
  {
  }

  function Matches(s: string): seq<RangeMatch> {
    MatchesFrom(Scans(s), 0)
  }

  // ---------------------------------------------------------------------
  // Completeness: a constraint written in the text is the match found

  /** `-?\s*[\d.,eE^*·⋅]+` spans exactly `s[p..e]`: an optional sign and
      blanks up to `m`, numeral characters from `m` to `e`, and none at `e`. */
  predicate BoundAt(s: string, p: nat, m: nat, e: nat) {
    && p <= m < e <= |s|
    && (if s[p] == '-' then forall k :: p < k < m ==> IsSpace(s[k])
        else forall k :: p <= k < m ==> IsSpace(s[k]))
    && (forall k :: m <= k < e ==> IsNumeralChar(s[k]))
    && (e == |s| || !IsNumeralChar(s[e]))
  }

  /** `\s*[≤<=]\s*` spans exactly `s[i..j]`, with the relation at `r`. */
  predicate RelationAt(s: string, i: nat, r: nat, j: nat) {
    && i <= r < j <= |s| && IsRelation(s[r])
    && (forall k :: i <= k < r ==> IsSpace(s[k]))
    && (forall k :: r < k < j ==> IsSpace(s[k]))
    && (j == |s| || !IsSpace(s[j]))
  }

  /** `[a-z](?:\s*,?\s*[a-z])*` spans `s[v0..v1]`: letters, blanks and
      commas from a letter to a letter, at most one comma between letters. */
  predicate VarListAt(s: string, v0: nat, v1: nat) {
    && v0 < v1 <= |s| && IsAsciiLetter(s[v0]) && IsAsciiLetter(s[v1 - 1])
    && (forall k :: v0 <= k < v1 ==> IsVarListChar(s[k]))
    && CommasSeparated(s, v0, v1)
  }

  /** Between any two commas of `s[v0..v1]` there is a letter. */
  predicate CommasSeparated(s: string, v0: nat, v1: nat) {
    forall a, b {:trigger CommaAt(s, a), CommaAt(s, b)} ::
      v0 <= a < b < v1 && CommaAt(s, a) && CommaAt(s, b) ==>
      exists k :: a < k < b && IsAsciiLetter(s[k])
  }

  predicate CommaAt(s: string, k: nat) { k < |s| && s[k] == ',' }

  /** A constraint `low rel vars rel high` written from `p` is the match found
      at `p`, with exactly its three groups, and the match ends after `high`. */
  lemma ConstraintFound(s: string, p: nat, m1: nat, e1: nat, r1: nat, v0: nat, v1: nat,
                        r2: nat, h0: nat, m2: nat, e2: nat)
    requires BoundAt(s, p, m1, e1) && RelationAt(s, e1, r1, v0) && VarListAt(s, v0, v1)
    requires RelationAt(s, v1, r2, h0) && BoundAt(s, h0, m2, e2)
    ensures MatchAt(s, p) == Matched(RangeMatch(s[p..e1], s[v0..v1], s[h0..e2]), e2)
  {
    LowFound(s, p, m1, e1, r1, v0);
    HighFound(s, v0, v1, r2, h0, m2, e2);
    ScanSteps(s, p, e1, v0, v1, h0, e2);
  }

  /** The scanner's first two steps stop where the low bound and the
      first relation end. */
  lemma LowFound(s: string, p: nat, m1: nat, e1: nat, r1: nat, v0: nat)
    requires BoundAt(s, p, m1, e1) && RelationAt(s, e1, r1, v0)
    ensures NumeralEnd(s, p) == Some(e1) && RelationEnd(s, e1) == Some(v0)
  {
    NumeralEndAt(s, p, m1, e1);
    RelationEndAt(s, e1, r1, v0);
  }

  /** The scanner's last three steps stop where the variable list, the
      second relation and the high bound end. */
  lemma HighFound(s: string, v0: nat, v1: nat, r2: nat, h0: nat, m2: nat, e2: nat)
    requires VarListAt(s, v0, v1) && RelationAt(s, v1, r2, h0) && BoundAt(s, h0, m2, e2)
    ensures VarsEnd(s, v0) == v1
    ensures RelationEnd(s, v1) == Some(h0) && NumeralEnd(s, h0) == Some(e2)
  {
    VarsEndReaches(s, v0, v0, v1, r2, h0);
    RelationEndAt(s, v1, r2, h0);
    NumeralEndAt(s, h0, m2, e2);
  }

  /** The scanner's steps, each found where the constraint puts it, make up the match. */
  lemma ScanSteps(s: string, p: nat, e1: nat, v0: nat, v1: nat, h0: nat, e2: nat)
    requires p < e1 <= v0 < v1 <= h0 < e2 <= |s| && IsAsciiLetter(s[v0])
    requires NumeralEnd(s, p) == Some(e1) && RelationEnd(s, e1) == Some(v0)
    requires VarsEnd(s, v0) == v1
    requires RelationEnd(s, v1) == Some(h0) && NumeralEnd(s, h0) == Some(e2)
    ensures MatchAt(s, p) == Matched(RangeMatch(s[p..e1], s[v0..v1], s[h0..e2]), e2)
  {
    LowStep(s, p, e1, v0);
    AfterVarsStep(s, p, e1, v0, v1, h0, e2);
  }

  /** Past the low bound and a relation, the scan goes on from the first letter. */
  lemma LowStep(s: string, p: nat, e1: nat, v0: nat)
    requires p < e1 <= v0 < |s| && IsAsciiLetter(s[v0])
    requires NumeralEnd(s, p) == Some(e1) && RelationEnd(s, e1) == Some(v0)
    ensures MatchAt(s, p) == MatchFromVars(s, p, e1, v0)
  {
    assert VarsStart(s, e1) == Some(v0);
  }

  /** Past the variable list, the second relation and the high bound make the match. */
  lemma AfterVarsStep(s: string, p: nat, e1: nat, v0: nat, v1: nat, h0: nat, e2: nat)
    requires p < e1 <= v0 < v1 <= h0 < e2 <= |s| && IsAsciiLetter(s[v0])
    requires forall k :: p <= k < e1 ==> IsNumeralPart(s[k])
    requires VarsEnd(s, v0) == v1
    requires RelationEnd(s, v1) == Some(h0) && NumeralEnd(s, h0) == Some(e2)
    ensures MatchFromVars(s, p, e1, v0) == Matched(RangeMatch(s[p..e1], s[v0..v1], s[h0..e2]), e2)
  {
  }

  /** A bound spanning `s[p..e]` is where the numeral step stops. */
  lemma NumeralEndAt(s: string, p: nat, m: nat, e: nat)
    requires BoundAt(s, p, m, e)
    ensures NumeralEnd(s, p) == Some(e)
  {
    var j := if s[p] == '-' then p + 1 else p;
    SpanStops(s, j, m, IsSpace);
    SpanStops(s, m, e, IsNumeralChar);
  }

  /** A relation spanning `s[i..j]` is where the relation step stops. */
  lemma RelationEndAt(s: string, i: nat, r: nat, j: nat)
    requires RelationAt(s, i, r, j)
    ensures RelationEnd(s, i) == Some(j)
  {
    SpanStops(s, i, r, IsSpace);
    SpanStops(s, r + 1, j, IsSpace);
  }

  /** A relation after the list ends the repetition of `\s*,?\s*[a-z]`. */
  lemma NoVarAfterList(s: string, v1: nat, r: nat, j: nat)
    requires RelationAt(s, v1, r, j)
    ensures NextVar(s, v1).None?
  {
    SpanStops(s, v1, r, IsSpace);
    SpanStops(s, r, r, IsSpace);
  }

  /** The repetition, resumed after the letter at `n`, runs to `v1` and
      stops at the relation after the list. */
  lemma {:induction false} VarsEndReaches(s: string, n: nat, v0: nat, v1: nat, r: nat, j: nat)
    requires VarListAt(s, v0, v1) && v0 <= n < v1 && IsAsciiLetter(s[n])
    requires RelationAt(s, v1, r, j)
    ensures VarsEnd(s, n) == v1
    decreases v1 - n
  {
    if n + 1 < v1 {
      var m := NextLetter(s, n + 1, v1);
      NextVarFinds(s, n + 1, v0, v1, m);
      VarsEndStep(s, n, m);
      VarsEndReaches(s, m, v0, v1, r, j);
    } else {
      NoVarAfterList(s, v1, r, j);
      VarsEndStops(s, n, v1);
    }
  }

  /** One more letter found: the repetition goes on after it. */
  lemma VarsEndStep(s: string, n: nat, m: nat)
    requires n < |s| && IsAsciiLetter(s[n]) && NextVar(s, n + 1) == Some(m)
    ensures VarsEnd(s, n) == VarsEnd(s, m)
  {
  }

  /** No further letter: the repetition ends after the letter at `n`. */
  lemma VarsEndStops(s: string, n: nat, i: nat)
    requires n < |s| && IsAsciiLetter(s[n]) && i == n + 1 && NextVar(s, i).None?
    ensures VarsEnd(s, n) == i
  {
  }

  /** The first letter at or after `i` in a list that ends on a letter before `v1`. */
  lemma {:induction false} NextLetter(s: string, i: nat, v1: nat) returns (n: nat)
    requires i < v1 <= |s| && IsAsciiLetter(s[v1 - 1])
    ensures i <= n < v1 && IsAsciiLetter(s[n])
    ensures forall k :: i <= k < n ==> !IsAsciiLetter(s[k])
    decreases v1 - i
  {
    if IsAsciiLetter(s[i]) {
      n := i;
    } else {
      n := NextLetter(s, i + 1, v1);
    }
  }

  /** Between two letters of the list, one iteration `\s*,?\s*[a-z]` reaches the second. */
  lemma NextVarFinds(s: string, i: nat, v0: nat, v1: nat, n: nat)
    requires VarListAt(s, v0, v1) && v0 < i <= n < v1 && IsAsciiLetter(s[n])
    requires forall k :: i <= k < n ==> !IsAsciiLetter(s[k])
    ensures NextVar(s, i) == Some(n)
  {
    var j := Span(s, i, IsSpace);
    assert j <= n;
    if j < n {
      assert CommaAt(s, j);
      forall k | j < k < n
        ensures IsSpace(s[k])
      {
        assert CommaAt(s, k) == (s[k] == ',');
      }
      SpanStops(s, j + 1, n, IsSpace);
    } else {
      SpanStops(s, n, n, IsSpace);
    }
  }

  /** `finditer` from `q` lists first the match at the first start where
      one exists, then goes on from where that match ended. */
  lemma {:induction false} FirstMatchListed(scans: seq<Scan>, q: nat, p: nat, m: RangeMatch, e: nat)
    requires Consistent(scans) && q <= p < |scans| && scans[p] == Matched(m, e)
    requires forall k :: q <= k < p ==> scans[k].NoMatch?
    ensures e <= |scans| && MatchesFrom(scans, q) == [m] + MatchesFrom(scans, e)
    decreases p - q
  {
    if q < p {
      FirstMatchListed(scans, q + 1, p, m, e);
    }
  }

  /** Where no start matches, `finditer` yields nothing. */
  lemma {:induction false} NoMatchNothingListed(scans: seq<Scan>, q: nat)
    requires Consistent(scans) && q <= |scans|
    requires forall k :: q <= k < |scans| ==> scans[k].NoMatch?
    ensures MatchesFrom(scans, q) == []
    decreases |scans| - q
  {
    if q < |scans| {
      NoMatchNothingListed(scans, q + 1);
    }
  }

  /** A constraint shared by two variables. */
  const SharedBounds: string := "1 \U{2264} n, m \U{2264} 5"

  /** `1 ≤ n, m ≤ 5` is a single match, with groups `1`, `n, m` and `5`. */
  lemma SharedBoundsMatched()
    ensures Matches(SharedBounds) == [RangeMatch("1", "n, m", "5")]
  {
    SharedBoundsLow();
    SharedBoundsVars();
    SharedBoundsHigh();
    ConstraintFound(SharedBounds, 0, 0, 1, 2, 4, 8, 9, 11, 11, 12);
    SharedBoundsGroups();
    FirstMatchListed(Scans(SharedBounds), 0, 0, RangeMatch("1", "n, m", "5"), 12);
  }

  // The parts of `1 ≤ n, m ≤ 5`, position by position.

  lemma SharedBoundsLow()
    ensures |SharedBounds| == 12
    ensures BoundAt(SharedBounds, 0, 0, 1) && RelationAt(SharedBounds, 1, 2, 4)
  {
  }

  lemma SharedBoundsVars()
    ensures VarListAt(SharedBounds, 4, 8) && RelationAt(SharedBounds, 8, 9, 11)
  {
    assert forall a :: 4 <= a < 8 && CommaAt(SharedBounds, a) ==> a == 5;
  }

  lemma SharedBoundsHigh()
    ensures BoundAt(SharedBounds, 11, 11, 12)
  {
  }

  lemma SharedBoundsGroups()
    ensures SharedBounds[0..1] == "1" && SharedBounds[4..8] == "n, m" && SharedBounds[11..12] == "5"
  {
  }

  // ---------------------------------------------------------------------
  // What one match records

  /** Line 55: `[v.strip() for v in vars_str.split(',')]`. */
  function SplitVars(varsRaw: string): seq<string> {
    StripAll(Split(varsRaw, ","))
  }

  function StripAll(parts: seq<string>): (r: seq<string>)
    ensures |r| == |parts|
    ensures forall k :: 0 <= k < |r| ==> r[k] == Strip(parts[k])
  {
    if parts == [] then [] else [Strip(parts[0])] + StripAll(parts[1..])
  }

  /** Lines 48-53: both bounds parse, or the match is skipped. */
  function Parsed(m: RangeMatch, parse: Parser): Option<Range> {
    Bounds(parse(m.lowRaw), parse(m.highRaw))
  }

  /** The range of two parsed bounds, when both parsed. */
  function Bounds(lo: Option<int>, hi: Option<int>): (r: Option<Range>)
    ensures r.Some? <==> lo.Some? && hi.Some?
    ensures r.Some? ==> r.value.low == lo.value && r.value.high == hi.value && SizeConsistent(r.value)
  {
    if lo.Some? && hi.Some? then Some(Range(lo.value, hi.value, hi.value - lo.value + 1)) else None
  }

  predicate SizeConsistent(r: Range) { r.size == r.high - r.low + 1 }

  /** What one match contributes: its bounds, when both parse, and its
      variable items. */
  datatype Constraint = Constraint(bounds: Option<Range>, vars: seq<string>)

  function ConstraintOf(m: RangeMatch, parse: Parser): Constraint {
    Constraint(Parsed(m, parse), SplitVars(m.varsRaw))
  }

  /** The constraints of the matches `ms`, in order. */
  function Constraints(ms: seq<RangeMatch>, parse: Parser): (cs: seq<Constraint>)
    ensures |cs| == |ms|
    ensures forall k :: 0 <= k < |cs| && cs[k].bounds.Some? ==> SizeConsistent(cs[k].bounds.value)
  {
    if ms == [] then [] else Constraints(ms[..|ms| - 1], parse) + [ConstraintOf(ms[|ms| - 1], parse)]
  }

  /** Lines 57-59 for the variables `vars` of one match. */
  function RecordVars(acc: map<string, Range>, vars: seq<string>, names: set<string>, r: Range): map<string, Range>
  {
    if vars == [] then acc
    else
      var prev := RecordVars(acc, vars[..|vars| - 1], names, r);
      var v := vars[|vars| - 1];
      if v in names then prev[v := r] else prev
  }

  /** The table after one more constraint. */
  function Record(acc: map<string, Range>, c: Constraint, names: set<string>): map<string, Range> {
    match c.bounds
    case None => acc
    case Some(r) => RecordVars(acc, c.vars, names, r)
  }

  /** The table after the constraints `cs`, in order. */
  function RecordAll(cs: seq<Constraint>, names: set<string>): map<string, Range> {
    if cs == [] then map[]
    else Record(RecordAll(cs[..|cs| - 1], names), cs[|cs| - 1], names)
  }

  /** `extract_variable_ranges(problem_text, variable_names)`. The names are
      only tested for membership, so a set stands for the list. */
  method ExtractVariableRanges(text: string, names: set<string>, parse: Parser)
    returns (ranges: map<string, Range>)
    ensures ranges == RecordAll(Constraints(Matches(text), parse), names)
    ensures forall v :: v in ranges ==> v in names && SizeConsistent(ranges[v])
  {
    ranges := RecordMatches(Matches(text), names, parse);
  }

  /** The loop of lines 45-59 over the matches `ms`, in order. */
  method RecordMatches(ms: seq<RangeMatch>, names: set<string>, parse: Parser)
    returns (ranges: map<string, Range>)
    ensures ranges == RecordAll(Constraints(ms, parse), names)
    ensures forall v :: v in ranges ==> v in names && SizeConsistent(ranges[v])
  {
    ranges := map[];
    var i := 0;
    assert ms[..0] == [];
    while i < |ms|
      invariant 0 <= i <= |ms|
      invariant ranges == RecordAll(Constraints(ms[..i], parse), names)
    {
      ConstraintsStep(ms, i, parse);
      RecordAllSnoc(Constraints(ms[..i], parse), ConstraintOf(ms[i], parse), names);
      ranges := RecordMatch(ranges, ms[i], names, parse);
      i := i + 1;
    }
    assert ms[..|ms|] == ms;
    RecordAllSound(Constraints(ms, parse), names);
  }

  /** Lines 47-59 for one match: parse both bounds, and when both parse,
      store the range under the listed variables that are known. */
  method RecordMatch(ranges: map<string, Range>, m: RangeMatch, names: set<string>, parse: Parser)
    returns (updated: map<string, Range>)
    ensures updated == Record(ranges, ConstraintOf(m, parse), names)
  {
    var low := parse(m.lowRaw);
    var high := parse(m.highRaw);
    var vars := SplitVars(m.varsRaw);
    assert ConstraintOf(m, parse) == Constraint(Bounds(low, high), vars);
    RecordBounds(ranges, vars, names, low, high);
    if low.Some? && high.Some? {
      updated := StoreRange(ranges, vars, names, Range(low.value, high.value, high.value - low.value + 1));
    } else {
      updated := ranges;
    }
  }

  /** Lines 56-59: store `rng` under every listed variable that is known. */
  method StoreRange(ranges: map<string, Range>, vars: seq<string>, names: set<string>, rng: Range)
    returns (updated: map<string, Range>)
    ensures updated == RecordVars(ranges, vars, names, rng)
  {
    updated := ranges;
    var j := 0;
    while j < |vars|
      invariant 0 <= j <= |vars|
      invariant updated == RecordVars(ranges, vars[..j], names, rng)
    {
      assert vars[..j + 1][..j] == vars[..j];
      if vars[j] in names {
        updated := updated[vars[j] := rng];
      }
      j := j + 1;
    }
    assert vars[..|vars|] == vars;
  }

  /** One constraint's effect on the table, in terms of its parsed bounds. */
  lemma RecordBounds(acc: map<string, Range>, vars: seq<string>, names: set<string>, low: Option<int>, high: Option<int>)
    ensures Record(acc, Constraint(Bounds(low, high), vars), names)
         == if low.Some? && high.Some? then RecordVars(acc, vars, names, Range(low.value, high.value, high.value - low.value + 1))
            else acc
  {
  }

  lemma RecordAllSnoc(cs: seq<Constraint>, c: Constraint, names: set<string>)
    ensures RecordAll(cs + [c], names) == Record(RecordAll(cs, names), c, names)
  {
    assert (cs + [c])[..|cs|] == cs;
  }

  lemma ConstraintsStep(ms: seq<RangeMatch>, i: nat, parse: Parser)
    requires i < |ms|
    ensures Constraints(ms[..i + 1], parse) == Constraints(ms[..i], parse) + [ConstraintOf(ms[i], parse)]
  {
    assert ms[..i + 1][..i] == ms[..i];
  }

  // ---------------------------------------------------------------------
  // Properties

  /** The variables of one match: which keys it sets and to what. */
  lemma {:induction false} RecordVarsEffect(acc: map<string, Range>, vars: seq<string>, names: set<string>, r: Range)
    ensures forall v :: v in RecordVars(acc, vars, names, r) <==> v in acc || (v in names && v in vars)
    ensures forall v :: v in names && v in vars ==> RecordVars(acc, vars, names, r)[v] == r
    ensures forall v :: v in acc && !(v in names && v in vars) ==> RecordVars(acc, vars, names, r)[v] == acc[v]
  {
    if vars != [] {
      var init := vars[..|vars| - 1];
      RecordVarsEffect(acc, init, names, r);
      assert forall v :: v in vars <==> v in init || v == vars[|vars| - 1] by {
        assert vars == init + [vars[|vars| - 1]];
      }
    }
  }

  /** Does constraint `c` store a range for variable `v`? */
  predicate Attributes(c: Constraint, v: string, names: set<string>) {
    c.bounds.Some? && v in names && v in c.vars
  }

  /** One constraint sets exactly the known variables it lists, to its bounds. */
  lemma RecordEffect(acc: map<string, Range>, c: Constraint, names: set<string>)
    ensures forall v :: v in Record(acc, c, names) <==> v in acc || Attributes(c, v, names)
    ensures forall v :: Attributes(c, v, names) ==> Record(acc, c, names)[v] == c.bounds.value
    ensures forall v :: v in acc && !Attributes(c, v, names) ==> Record(acc, c, names)[v] == acc[v]
  {
    match c.bounds
    case None =>
    case Some(r) => RecordVarsEffect(acc, c.vars, names, r);
  }

  /** Every stored entry belongs to a known variable and has the size its
      bounds give. */
  lemma {:induction false} RecordAllSound(cs: seq<Constraint>, names: set<string>)
    requires forall k :: 0 <= k < |cs| && cs[k].bounds.Some? ==> SizeConsistent(cs[k].bounds.value)
    ensures forall v :: v in RecordAll(cs, names) ==> v in names && SizeConsistent(RecordAll(cs, names)[v])
  {
    if cs != [] {
      RecordAllSound(cs[..|cs| - 1], names);
      RecordEffect(RecordAll(cs[..|cs| - 1], names), cs[|cs| - 1], names);
    }
  }

  /** A variable has an entry exactly when some match whose bounds parsed
      lists it. */
  lemma {:induction false} RecordedIffListed(cs: seq<Constraint>, names: set<string>, v: string)
    ensures v in RecordAll(cs, names) <==> exists i :: 0 <= i < |cs| && Attributes(cs[i], v, names)
  {
    if cs != [] {
      var n := |cs| - 1;
      var init := cs[..n];
      RecordedIffListed(init, names, v);
      RecordEffect(RecordAll(init, names), cs[n], names);
      if v in RecordAll(cs, names) && !Attributes(cs[n], v, names) {
        var i :| 0 <= i < n && Attributes(init[i], v, names);
        assert cs[i] == init[i];
      }
      if exists i :: 0 <= i < |cs| && Attributes(cs[i], v, names) {
        var i :| 0 <= i < |cs| && Attributes(cs[i], v, names);
        if i < n {
          assert init[i] == cs[i];
        }
      }
    }
  }

  /** Last match wins: the entry is the range of the last match that lists
      the variable and whose bounds parsed. */
  lemma {:induction false} LastMatchWins(cs: seq<Constraint>, names: set<string>, v: string, i: nat)
    requires i < |cs| && Attributes(cs[i], v, names)
    requires forall j :: i < j < |cs| ==> !Attributes(cs[j], v, names)
    ensures v in RecordAll(cs, names) && RecordAll(cs, names)[v] == cs[i].bounds.value
  {
    var n := |cs| - 1;
    var init := cs[..n];
    RecordEffect(RecordAll(init, names), cs[n], names);
    if i < n {
      forall j | i < j < n ensures !Attributes(init[j], v, names) {
        assert init[j] == cs[j];
      }
      LastMatchWins(init, names, v, i);
    }
  }

  /** A match whose bounds do not both parse records nothing: the table is
      the one obtained without it. */
  lemma {:induction false} UnparsableMatchIgnored(cs: seq<Constraint>, i: nat, names: set<string>)
    requires i < |cs| && cs[i].bounds.None?
    ensures RecordAll(cs, names) == RecordAll(cs[..i] + cs[i + 1..], names)
  {
    var n := |cs| - 1;
    assert RecordAll(cs, names) == Record(RecordAll(cs[..n], names), cs[n], names);
    if i == n {
      assert cs[..i] + cs[i + 1..] == cs[..n];
    } else {
      UnparsableMatchIgnored(cs[..n], i, names);
      var shorter := cs[..i] + cs[i + 1..];
      assert shorter[..|shorter| - 1] == cs[..n][..i] + cs[..n][i + 1..];
      assert shorter[|shorter| - 1] == cs[n];
      assert RecordAll(shorter, names) == Record(RecordAll(shorter[..|shorter| - 1], names), cs[n], names);
    }
  }

  /** A variable list is split at commas only: without a comma it stays one
      item, and two letters separated by a comma become two items. */
  lemma SplitWithoutComma(varsRaw: string)
    requires ',' !in varsRaw
    ensures SplitVars(varsRaw) == [Strip(varsRaw)]
  {
    forall k: nat | k < |varsRaw| ensures !OccursAt(varsRaw, ",", k) {
      assert varsRaw[k..k + 1][0] == varsRaw[k];
    }
    assert Find(varsRaw, ",", 0) == None;
  }

  lemma SplitAtComma(a: char, b: char)
    requires IsAsciiLetter(a) && IsAsciiLetter(b)
    ensures SplitVars([a, ',', ' ', b]) == [[a], [b]]
  {
    SplitPair(a, b);
    StripUnpadded([a]);
    StripBlankLetter(b);
  }

  lemma SplitPair(a: char, b: char)
    requires IsAsciiLetter(a) && IsAsciiLetter(b)
    ensures Split([a, ',', ' ', b], ",") == [[a], [' ', b]]
  {
    var s := [a, ',', ' ', b];
    CommaAtOne(a, b);
    NoCommaInBlankLetter(b);
    assert s[..1] == [a] && s[2..] == [' ', b];
  }

  lemma CommaAtOne(a: char, b: char)
    requires IsAsciiLetter(a)
    ensures Find([a, ',', ' ', b], ",", 0) == Some(1)
  {
    var s := [a, ',', ' ', b];
    assert !OccursAt(s, ",", 0) by { assert s[0..1] == [a]; }
    assert OccursAt(s, ",", 1) by { assert s[1..2] == ","; }
  }

  lemma NoCommaInBlankLetter(b: char)
    requires IsAsciiLetter(b)
    ensures Split([' ', b], ",") == [[' ', b]]
  {
    var rest := [' ', b];
    assert !OccursAt(rest, ",", 0) by { assert rest[0..1] == [' ']; }
    assert !OccursAt(rest, ",", 1) by { assert rest[1..2] == [b]; }
    assert Find(rest, ",", 0) == None;
  }

  lemma StripBlankLetter(b: char)
    requires IsAsciiLetter(b)
    ensures Strip([' ', b]) == [b]
  {
    var rest := [' ', b];
    assert LeadingRun(rest, IsSpace) == 1 by { assert LeadingRun(rest[1..], IsSpace) == 0; }
    assert LStrip(rest) == [b];
  }

  /** A list of several letters without a comma is one item of several
      characters, so it never names a single-letter variable: `1 ≤ n m ≤ 5`
      records nothing for `n` or `m`. */
  lemma NoCommaRecordsNoLetter(acc: map<string, Range>, m: RangeMatch, bounds: Option<Range>, names: set<string>)
    requires WellFormed(m) && ',' !in m.varsRaw && |m.varsRaw| > 1
    requires forall v :: v in names ==> |v| == 1
    ensures Record(acc, Constraint(bounds, SplitVars(m.varsRaw)), names) == acc
  {
    NoCommaListsNoLetter(m.varsRaw, names);
    if bounds.Some? {
      assert [m.varsRaw][..0] == [];
      assert RecordVars(acc, [m.varsRaw], names, bounds.value) == acc;
    }
  }

  lemma NoCommaListsNoLetter(varsRaw: string, names: set<string>)
    requires varsRaw != [] && !IsSpace(varsRaw[0]) && !IsSpace(varsRaw[|varsRaw| - 1])
    requires ',' !in varsRaw && |varsRaw| > 1
    requires forall v :: v in names ==> |v| == 1
    ensures SplitVars(varsRaw) == [varsRaw] && varsRaw !in names
  {
    SplitWithoutComma(varsRaw);
    StripUnpadded(varsRaw);
  }
}
