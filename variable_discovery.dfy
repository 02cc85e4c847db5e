/**
 * `extract_variables` of FeatureExtractor.py: the single letters that stand
 * alone between delimiters, after one leading `X.` label is removed.
 *
 * The scanner reproduces `re.findall` for the pattern of line 85,
 *   (?:^|[\s\(\.,;:])([a-zA-Z])(?:[\s\)\.,;:]|$)
 * A match consumes its closing delimiter, and the search resumes after it,
 * so in `n m k` the space after `n` cannot open a match for `m`.
 */
module VariableDiscovery {
  import opened Strings

  /** The class `[\s\(\.,;:]` that may precede a variable. */
  predicate IsOpenDelim(c: char) {
    IsSpace(c) || c == '(' || c == '.' || c == ',' || c == ';' || c == ':'
  }

  /** The class `[\s\)\.,;:]` that may follow a variable. */
  predicate IsCloseDelim(c: char) {
    IsSpace(c) || c == ')' || c == '.' || c == ',' || c == ';' || c == ':'
  }

  /** `(?:[\s\)\.,;:]|$)` at index `q`: where it ends. */
  function CloseEnd(s: string, q: nat): (r: Option<nat>)
    requires q <= |s|
    ensures r.Some? ==> q <= r.value <= q + 1 && r.value <= |s|
    ensures r.Some? <==> q == |s| || IsCloseDelim(s[q])
  {
    if q == |s| then Some(q)
    else if IsCloseDelim(s[q]) then Some(q + 1)
    else None
  }

  /** The match that starts at index `p`: the letter and where the match ends.
      The `^` alternative is tried first and applies only at index 0. */
  function LetterAt(s: string, p: nat): (r: Option<(char, nat)>)
    requires p <= |s|
    ensures r.Some? ==> IsAsciiLetter(r.value.0) && p < r.value.1 <= |s|
  {
    if p == 0 && p < |s| && IsAsciiLetter(s[0]) && CloseEnd(s, 1).Some? then
      Some((s[0], CloseEnd(s, 1).value))
    else if p + 1 < |s| && IsOpenDelim(s[p]) && IsAsciiLetter(s[p + 1]) && CloseEnd(s, p + 2).Some? then
      Some((s[p + 1], CloseEnd(s, p + 2).value))
    else None
  }

  /** `re.findall` from index `p`: the captured letters, in order. */
  function FindAllFrom(s: string, p: nat): (found: seq<char>)
    requires p <= |s|
    ensures forall k :: 0 <= k < |found| ==> IsAsciiLetter(found[k])
    decreases |s| - p
  {
    if p == |s| then []
    else
      var r := LetterAt(s, p);
      if r.Some? then [r.value.0] + FindAllFrom(s, r.value.1) else FindAllFrom(s, p + 1)
  }

  /** `re.sub(r'^[A-Za-z]\.', '', text, count=1)`: one label, at the very start. */
  function StripLabel(text: string): (r: string)
    ensures r == text || (|text| >= 2 && r == text[2..])
  {
    if |text| >= 2 && IsAsciiLetter(text[0]) && text[1] == '.' then text[2..] else text
  }

  /** The text the pattern is searched in (line 83). */
  function Scanned(text: string): string {
    LStrip(StripLabel(text))
  }

  function Elements(cs: seq<char>): (r: set<char>)
    ensures forall c :: c in r <==> c in cs
  {
    set c | c in cs
  }

  /** `extract_variables(text)`. The result list comes from a set, so its
      order is unspecified; the model returns the set. */
  function ExtractVariables(text: string): (vars: set<char>)
    ensures text == [] ==> vars == {}
    ensures forall c :: c in vars ==> IsAsciiLetter(c)
  {
    if text == [] then {} else Elements(FindAllFrom(Scanned(text), 0))
  }

  // ---------------------------------------------------------------------
  // Properties

  /** Letter `s[i]` stands alone: at the start or after an opening
      delimiter, and at the end or before a closing one. */
  predicate Isolated(s: string, i: nat) {
    i < |s| && IsAsciiLetter(s[i])
    && (i == 0 || IsOpenDelim(s[i - 1]))
    && (i + 1 == |s| || IsCloseDelim(s[i + 1]))
  }

  /** Every letter found stands alone somewhere in the scanned text. */
  lemma {:induction false} FoundLettersIsolated(s: string, p: nat)
    requires p <= |s|
    ensures forall c :: c in FindAllFrom(s, p) ==> exists i :: p <= i < |s| && Isolated(s, i) && s[i] == c
    decreases |s| - p
  {
    if p < |s| {
      var r := LetterAt(s, p);
      if r.Some? {
        FoundLettersIsolated(s, r.value.1);
        var i := if p == 0 && IsAsciiLetter(s[0]) && CloseEnd(s, 1).Some? then 0 else p + 1;
        assert Isolated(s, i) && s[i] == r.value.0;
      } else {
        FoundLettersIsolated(s, p + 1);
      }
    }
  }

  /** A letter that stands alone is found, unless the delimiter before it
      is consumed by a match of the letter two places earlier, which needs
      that letter to stand alone too. */
  lemma {:induction false} IsolatedLetterFound(s: string, p: nat, i: nat)
    requires Isolated(s, i)
    requires i < 2 || !Isolated(s, i - 2)
    requires p < i || p == i == 0
    ensures s[i] in FindAllFrom(s, p)
    decreases |s| - p
  {
    var r := LetterAt(s, p);
    if i == 0 || p == i - 1 {
      assert r.Some? && r.value.0 == s[i];
    } else if r.Some? {
      assert r.value.1 <= i - 1;
      IsolatedLetterFound(s, r.value.1, i);
    } else {
      IsolatedLetterFound(s, p + 1, i);
    }
  }

  /** A closing delimiter is consumed: of three letters separated by single
      spaces, the middle one is not found. */
  lemma SpaceSeparatedLetters(a: char, b: char, c: char)
    requires IsAsciiLetter(a) && IsAsciiLetter(b) && IsAsciiLetter(c)
    ensures FindAllFrom([a, ' ', b, ' ', c], 0) == [a, c]
  {
    var s := [a, ' ', b, ' ', c];
    assert LetterAt(s, 0) == Some((a, 2));
    assert LetterAt(s, 2) == None;
    assert LetterAt(s, 3) == Some((c, 5));
    assert FindAllFrom(s, 3) == [c];
    assert FindAllFrom(s, 2) == [c];
  }

  /** The label is removed once: in `A. B. x` the second label letter is
      a variable, the first is not. */
  lemma LabelRemovedOnce(a: char, b: char, x: char)
    requires IsAsciiLetter(a) && IsAsciiLetter(b) && IsAsciiLetter(x)
    ensures ExtractVariables([a, '.', ' ', b, '.', ' ', x]) == {b, x}
  {
    var text := [a, '.', ' ', b, '.', ' ', x];
    var t := [b, '.', ' ', x];
    assert StripLabel(text) == [' '] + t;
    assert LeadingRun([' '] + t, IsSpace) == 1 by {
      assert ([' '] + t)[1..] == t;
      assert LeadingRun(t, IsSpace) == 0;
    }
    assert Scanned(text) == t;
    assert LetterAt(t, 0) == Some((b, 2));
    assert LetterAt(t, 2) == Some((x, 4));
    assert FindAllFrom(t, 4) == [];
    assert FindAllFrom(t, 0) == [b, x];
  }
}
