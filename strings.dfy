/**
 * Character classes and string operations shared by the feature extractor,
 * the statement normaliser and the label merger.
 *
 * Strings are `seq<char>` over Unicode scalar values. The character classes
 * follow Python 3's `str` semantics where the program relies on them:
 * `\s`, `str.split()` and `str.strip()` use the Unicode whitespace set of
 * `str.isspace()`; `\d`, `\b` and `[a-z]` are taken in their ASCII reading.
 */
module Strings {

  datatype Option<T> = None | Some(value: T)

  /** The characters Python's `str.isspace()` accepts, which is also the set
      `\s` matches in a `str` pattern and the separators of `str.split()`. */
  predicate IsSpace(c: char) {
    || ('\t' <= c <= '\r')                     // \t \n \v \f \r
    || ('\U{1C}' <= c <= ' ')                  // file/group/record/unit separators, space
    || c == '\U{85}' || c == '\U{A0}' || c == '\U{1680}'
    || ('\U{2000}' <= c <= '\U{200A}')
    || c == '\U{2028}' || c == '\U{2029}' || c == '\U{202F}' || c == '\U{205F}'
    || c == '\U{3000}'
  }

  predicate NotSpace(c: char) { !IsSpace(c) }

  predicate IsDigit(c: char) { '0' <= c <= '9' }

  predicate IsAsciiLetter(c: char) { ('a' <= c <= 'z') || ('A' <= c <= 'Z') }

  /** A character of `\w`: the side of a `\b` boundary that counts as "word". */
  predicate IsWordChar(c: char) { IsAsciiLetter(c) || IsDigit(c) || c == '_' }

  predicate AllDigits(s: string) { forall k :: 0 <= k < |s| ==> IsDigit(s[k]) }

  // ---------------------------------------------------------------------
  // Spans and occurrences

  /** The end of the maximal run of `P`-characters that starts at index `i`:
      what a greedy `P*` consumes from `i`. */
  function Span(s: string, i: nat, P: char -> bool): (j: nat)
    requires i <= |s|
    ensures i <= j <= |s|
    ensures forall k :: i <= k < j ==> P(s[k])
    ensures j < |s| ==> !P(s[j])
    decreases |s| - i
  {
    if i < |s| && P(s[i]) then Span(s, i + 1, P) else i
  }

  /** `Span` ends exactly at `j` when all before it satisfy `P` and `s[j]` does not. */
  lemma {:induction false} SpanStops(s: string, i: nat, j: nat, P: char -> bool)
    requires i <= j <= |s|
    requires forall k :: i <= k < j ==> P(s[k])
    requires j == |s| || !P(s[j])
    ensures Span(s, i, P) == j
    decreases j - i
  {
    if i < j {
      SpanStops(s, i + 1, j, P);
    }
  }

  /** The length of the maximal prefix of `s` whose characters satisfy `P`. */
  function LeadingRun(s: string, P: char -> bool): (n: nat)
    ensures n <= |s|
    ensures forall k :: 0 <= k < n ==> P(s[k])
    ensures n < |s| ==> !P(s[n])
  {
    if s != [] && P(s[0]) then 1 + LeadingRun(s[1..], P) else 0
  }

  lemma {:induction false} LeadingRunAppend(w: string, t: string, P: char -> bool)
    requires forall k :: 0 <= k < |w| ==> P(w[k])
    ensures LeadingRun(w + t, P) == |w| + LeadingRun(t, P)
  {
    if w != [] {
      assert (w + t)[1..] == w[1..] + t;
      LeadingRunAppend(w[1..], t, P);
    } else {
      assert w + t == t;
    }
  }

  /** A window of a suffix is a window of the whole. */
  lemma SliceOfSuffix<T>(s: seq<T>, i: nat, a: nat, b: nat)
    requires i <= |s| && a <= b <= |s| - i
    ensures s[i..][a..b] == s[i + a..i + b] && s[i..][a..] == s[i + a..]
  {
  }

  /** A window of a prefix is a window of the whole. */
  lemma WindowOfPrefix<T>(s: seq<T>, k: nat, a: nat, b: nat)
    requires a <= b <= k <= |s|
    ensures s[..k][a..b] == s[a..b]
  {
  }

  /** `pat` occurs in `s` at index `i`. */
  predicate OccursAt(s: string, pat: string, i: nat) {
    i + |pat| <= |s| && s[i..i + |pat|] == pat
  }

  predicate Contains(s: string, pat: string) {
    exists i :: 0 <= i <= |s| && OccursAt(s, pat, i)
  }

  /** The first index at or after `i` where `pat` occurs, as `str.find` gives it. */
  function Find(s: string, pat: string, i: nat): (r: Option<nat>)
    requires i <= |s|
    ensures r.Some? ==> i <= r.value && OccursAt(s, pat, r.value)
    ensures r.Some? ==> forall k :: i <= k < r.value ==> !OccursAt(s, pat, k)
    ensures r.None? ==> forall k :: i <= k ==> !OccursAt(s, pat, k)
    decreases |s| - i
  {
    if OccursAt(s, pat, i) then Some(i)
    else if i == |s| then None
    else Find(s, pat, i + 1)
  }

  // ---------------------------------------------------------------------
  // str.split(sep), str.join and str.replace

  /** Python's `s.split(sep)` for a non-empty separator: the pieces between
      the non-overlapping occurrences of `sep`, found left to right. */
  function Split(s: string, sep: string): (parts: seq<string>)
    requires sep != []
    ensures |parts| >= 1
    decreases |s|
  {
    match Find(s, sep, 0)
    case None => [s]
    case Some(k) => [s[..k]] + Split(s[k + |sep|..], sep)
  }

  /** Python's `sep.join(parts)`. */
  function Join(parts: seq<string>, sep: string): string {
    if |parts| == 0 then []
    else if |parts| == 1 then parts[0]
    else parts[0] + sep + Join(parts[1..], sep)
  }

  /** Python's `s.replace(pat, rep)` for a non-empty pattern, as CPython
      computes it: scan left to right, and at each index where `pat` occurs
      emit `rep` and jump past the occurrence. */
  function ReplaceAll(s: string, pat: string, rep: string): string
    requires pat != []
  {
    ReplaceFrom(s, pat, rep, 0)
  }

  function ReplaceFrom(s: string, pat: string, rep: string, i: nat): string
    requires pat != [] && i <= |s|
    decreases |s| - i
  {
    if i == |s| then []
    else if OccursAt(s, pat, i) then rep + ReplaceFrom(s, pat, rep, i + |pat|)
    else [s[i]] + ReplaceFrom(s, pat, rep, i + 1)
  }

  /** Splitting at a separator and joining with the same separator gives the
      original string back. */
  lemma {:induction false} JoinSplit(s: string, sep: string)
    requires sep != []
    ensures Join(Split(s, sep), sep) == s
    decreases |s|
  {
    match Find(s, sep, 0)
    case None =>
    case Some(k) =>
      var rest := s[k + |sep|..];
      var tail := Split(rest, sep);
      JoinSplit(rest, sep);
      assert Split(s, sep) == [s[..k]] + tail;
      assert ([s[..k]] + tail)[1..] == tail;
      assert Join(Split(s, sep), sep) == s[..k] + sep + Join(tail, sep);
      assert s == s[..k] + s[k..k + |sep|] + rest;
  }

  /** No piece of a split contains the separator. */
  lemma {:induction false} SplitPiecesAvoidSeparator(s: string, sep: string)
    requires sep != []
    ensures forall p :: p in Split(s, sep) ==> !Contains(p, sep)
    decreases |s|
  {
    match Find(s, sep, 0)
    case None =>
    case Some(k) =>
      SplitPiecesAvoidSeparator(s[k + |sep|..], sep);
      assert Split(s, sep) == [s[..k]] + Split(s[k + |sep|..], sep);
      forall i | 0 <= i <= k ensures !OccursAt(s[..k], sep, i) {
        if i + |sep| <= k {
          WindowOfPrefix(s, k, i, i + |sep|);
          assert !OccursAt(s, sep, i);
        }
      }
  }

  /** A one-character separator splits a string into at least two pieces
      exactly when the character occurs in it. */
  lemma {:induction false} SplitCharPieces(s: string, c: char)
    ensures |Split(s, [c])| >= 2 <==> c in s
  {
    match Find(s, [c], 0)
    case None =>
      forall i | 0 <= i < |s| ensures s[i] != c {
        assert s[i..i + 1] == [s[i]];
        assert !OccursAt(s, [c], i);
      }
    case Some(k) =>
      assert s[k] == s[k..k + 1][0];
  }

  /** Where `pat` does not occur from `i` on, the replacement copies the rest verbatim. */
  lemma {:induction false} ReplaceFromVerbatim(s: string, pat: string, rep: string, i: nat)
    requires pat != [] && i <= |s|
    requires forall k :: i <= k ==> !OccursAt(s, pat, k)
    ensures ReplaceFrom(s, pat, rep, i) == s[i..]
    decreases |s| - i
  {
    if i < |s| {
      ReplaceFromVerbatim(s, pat, rep, i + 1);
      assert s[i..] == [s[i]] + s[i + 1..];
    }
  }

  /** One step of the scan where `pat` does not occur: the character is copied. */
  lemma ReplaceStepCopy(s: string, pat: string, rep: string, i: nat, tail: string)
    requires pat != [] && i < |s| && !OccursAt(s, pat, i) && tail == ReplaceFrom(s, pat, rep, i + 1)
    ensures ReplaceFrom(s, pat, rep, i) == [s[i]] + tail
  {
  }

  /** One step of the scan where `pat` occurs: `rep` is emitted and the occurrence skipped. */
  lemma ReplaceStepMatch(s: string, pat: string, rep: string, i: nat, tail: string)
    requires pat != [] && OccursAt(s, pat, i) && tail == ReplaceFrom(s, pat, rep, i + |pat|)
    ensures i < |s| && ReplaceFrom(s, pat, rep, i) == rep + tail
  {
  }

  /** Where `pat` does not occur at all, `str.replace` returns the string unchanged. */
  lemma ReplaceAbsent(s: string, pat: string, rep: string)
    requires pat != [] && !Contains(s, pat)
    ensures ReplaceAll(s, pat, rep) == s
  {
    ReplaceFromVerbatim(s, pat, rep, 0);
  }

  /** A window of the replacement's output that holds no character of `rep`
      was copied from one place of the input, and no occurrence of `pat`
      starts where the window starts. */
  lemma {:induction false} ReplaceWindow(s: string, pat: string, rep: string, i: nat, q: nat, n: nat)
    returns (j: nat)
    requires pat != [] && rep != [] && i <= |s|
    requires q + n <= |ReplaceFrom(s, pat, rep, i)|
    requires forall t :: q <= t < q + n ==> ReplaceFrom(s, pat, rep, i)[t] !in rep
    ensures i <= j && j + n <= |s| && s[j..j + n] == ReplaceFrom(s, pat, rep, i)[q..q + n]
    ensures n > 0 ==> !OccursAt(s, pat, j)
    ensures q == 0 ==> j == i
    decreases |s| - i, 2
  {
    if n == 0 || i == |s| {
      j := i;
    } else if OccursAt(s, pat, i) {
      j := ReplaceWindowAtMatch(s, pat, rep, i, q, n);
    } else {
      j := ReplaceWindowAtCopy(s, pat, rep, i, q, n);
    }
  }

  lemma {:induction false} ReplaceWindowAtMatch(s: string, pat: string, rep: string, i: nat, q: nat, n: nat)
    returns (j: nat)
    requires pat != [] && rep != [] && i < |s| && n > 0 && OccursAt(s, pat, i)
    requires q + n <= |ReplaceFrom(s, pat, rep, i)|
    requires forall t :: q <= t < q + n ==> ReplaceFrom(s, pat, rep, i)[t] !in rep
    ensures i <= j && j + n <= |s| && s[j..j + n] == ReplaceFrom(s, pat, rep, i)[q..q + n]
    ensures !OccursAt(s, pat, j)
    ensures q != 0
    decreases |s| - i, 1
  {
    var r := ReplaceFrom(s, pat, rep, i);
    var r' := ReplaceFrom(s, pat, rep, i + |pat|);
    ReplaceStepMatch(s, pat, rep, i, r');
    assert forall t :: 0 <= t < |rep| ==> r[t] in rep;
    assert r[q] !in rep;
    forall t | q - |rep| <= t < q - |rep| + n ensures r'[t] !in rep {
      assert r'[t] == r[t + |rep|];
    }
    j := ReplaceWindow(s, pat, rep, i + |pat|, q - |rep|, n);
    WindowAfter(rep, r', q, n);
  }

  lemma {:induction false} ReplaceWindowAtCopy(s: string, pat: string, rep: string, i: nat, q: nat, n: nat)
    returns (j: nat)
    requires pat != [] && rep != [] && i < |s| && n > 0 && !OccursAt(s, pat, i)
    requires q + n <= |ReplaceFrom(s, pat, rep, i)|
    requires forall t :: q <= t < q + n ==> ReplaceFrom(s, pat, rep, i)[t] !in rep
    ensures i <= j && j + n <= |s| && s[j..j + n] == ReplaceFrom(s, pat, rep, i)[q..q + n]
    ensures !OccursAt(s, pat, j)
    ensures q == 0 ==> j == i
    decreases |s| - i, 1
  {
    if q == 0 {
      ReplaceWindowCopyHead(s, pat, rep, i, n);
      j := i;
    } else {
      j := ReplaceWindowCopyLater(s, pat, rep, i, q, n);
    }
  }

  /** The window starts at the copied character. */
  lemma {:induction false} ReplaceWindowCopyHead(s: string, pat: string, rep: string, i: nat, n: nat)
    requires pat != [] && rep != [] && i < |s| && n > 0 && !OccursAt(s, pat, i)
    requires n <= |ReplaceFrom(s, pat, rep, i)|
    requires forall t :: 0 <= t < n ==> ReplaceFrom(s, pat, rep, i)[t] !in rep
    ensures i + n <= |s| && s[i..i + n] == ReplaceFrom(s, pat, rep, i)[0..n]
    decreases |s| - i, 0
  {
    var r := ReplaceFrom(s, pat, rep, i);
    var r' := ReplaceFrom(s, pat, rep, i + 1);
    ReplaceStepCopy(s, pat, rep, i, r');
    forall t | 0 <= t < n - 1 ensures r'[t] !in rep {
      assert r'[t] == r[t + 1];
    }
    var j' := ReplaceWindow(s, pat, rep, i + 1, 0, n - 1);
    WindowAtHead(s, i, n, r');
  }

  /** The window starts after the copied character. */
  lemma {:induction false} ReplaceWindowCopyLater(s: string, pat: string, rep: string, i: nat, q: nat, n: nat)
    returns (j: nat)
    requires pat != [] && rep != [] && i < |s| && n > 0 && q > 0 && !OccursAt(s, pat, i)
    requires q + n <= |ReplaceFrom(s, pat, rep, i)|
    requires forall t :: q <= t < q + n ==> ReplaceFrom(s, pat, rep, i)[t] !in rep
    ensures i <= j && j + n <= |s| && s[j..j + n] == ReplaceFrom(s, pat, rep, i)[q..q + n]
    ensures !OccursAt(s, pat, j)
    decreases |s| - i, 0
  {
    var r := ReplaceFrom(s, pat, rep, i);
    var r' := ReplaceFrom(s, pat, rep, i + 1);
    ReplaceStepCopy(s, pat, rep, i, r');
    forall t | q - 1 <= t < q - 1 + n ensures r'[t] !in rep {
      assert r'[t] == r[t + 1];
    }
    j := ReplaceWindow(s, pat, rep, i + 1, q - 1, n);
    WindowAfter([s[i]], r', q, n);
  }

  /** A window of `x + y` that lies past `x` is a window of `y`. */
  lemma WindowAfter<T>(x: seq<T>, y: seq<T>, q: nat, n: nat)
    requires |x| <= q && q + n <= |x| + |y|
    ensures (x + y)[q..q + n] == y[q - |x|..q - |x| + n]
  {
  }

  /** A window of `s` at `i` whose tail was copied into `y` is a prefix of `[s[i]] + y`. */
  lemma WindowAtHead<T>(s: seq<T>, i: nat, n: nat, y: seq<T>)
    requires 0 < n && i + n <= |s| && n - 1 <= |y| && s[i + 1..i + n] == y[0..n - 1]
    ensures s[i..i + n] == ([s[i]] + y)[0..n]
  {
    assert s[i..i + n] == [s[i]] + s[i + 1..i + n];
  }

  /** Replacing `pat` by a non-empty text that shares no character with it
      leaves no occurrence of `pat` behind. */
  lemma ReplaceRemoves(s: string, pat: string, rep: string)
    requires pat != [] && rep != []
    requires forall c :: c in rep ==> c !in pat
    ensures !Contains(ReplaceAll(s, pat, rep), pat)
  {
    var r := ReplaceAll(s, pat, rep);
    forall q | 0 <= q <= |r| && OccursAt(r, pat, q) ensures false {
      forall t | q <= t < q + |pat| ensures r[t] !in rep {
        assert r[t] == pat[t - q];
      }
      var j := ReplaceWindow(s, pat, rep, 0, q, |pat|);
      assert OccursAt(s, pat, j);
    }
  }

  /** Replacing any pattern by a non-empty text that shares no character with
      `other` cannot create an occurrence of `other`. */
  lemma ReplaceKeepsAbsent(s: string, pat: string, rep: string, other: string)
    requires pat != [] && rep != [] && other != []
    requires forall c :: c in rep ==> c !in other
    requires !Contains(s, other)
    ensures !Contains(ReplaceAll(s, pat, rep), other)
  {
    var r := ReplaceAll(s, pat, rep);
    forall q | 0 <= q <= |r| && OccursAt(r, other, q) ensures false {
      forall t | q <= t < q + |other| ensures r[t] !in rep {
        assert r[t] == other[t - q];
      }
      var j := ReplaceWindow(s, pat, rep, 0, q, |other|);
      assert OccursAt(s, other, j);
    }
  }

  /** Applies `f` to every character and concatenates the results. */
  function MapChars(s: string, f: char -> string): string {
    if s == [] then [] else f(s[0]) + MapChars(s[1..], f)
  }

  lemma {:induction false} MapCharsAppend(a: string, b: string, f: char -> string)
    ensures MapChars(a + b, f) == MapChars(a, f) + MapChars(b, f)
  {
    if a == [] {
      assert a + b == b;
    } else {
      assert (a + b)[1..] == a[1..] + b;
      MapCharsAppend(a[1..], b, f);
    }
  }

  /** The character map that `s.replace(c, rep)` performs. */
  function Swap(c: char, rep: string): char -> string {
    (x: char) => if x == c then rep else [x]
  }

  /** Replacing a single character is a character-by-character map. */
  lemma {:induction false} ReplaceCharIsMap(s: string, c: char, rep: string, i: nat)
    requires i <= |s|
    ensures ReplaceFrom(s, [c], rep, i) == MapChars(s[i..], Swap(c, rep))
    decreases |s| - i
  {
    if i < |s| {
      ReplaceCharIsMap(s, c, rep, i + 1);
      assert s[i..][1..] == s[i + 1..];
      assert OccursAt(s, [c], i) <==> s[i] == c by {
        assert s[i..i + 1] == [s[i]];
      }
    }
  }

  // ---------------------------------------------------------------------
  // Maximal runs: str.split() and re.findall over a character class

  /** The maximal runs of `P`-characters, left to right. With `NotSpace`
      this is Python's `s.split()`; with `IsDigit` it is `re.findall(r'\d+', s)`. */
  function Runs(s: string, P: char -> bool): (rs: seq<string>)
    ensures forall r :: r in rs ==> r != [] && forall k :: 0 <= k < |r| ==> P(r[k])
    decreases |s|
  {
    if s == [] then []
    else if !P(s[0]) then Runs(s[1..], P)
    else
      var j := LeadingRun(s, P);
      [s[..j]] + Runs(s[j..], P)
  }

  /** The `P`-characters of `s`, in order. */
  function Filter(s: string, P: char -> bool): string {
    if s == [] then [] else (if P(s[0]) then [s[0]] else []) + Filter(s[1..], P)
  }

  function Concat(rs: seq<string>): string {
    if rs == [] then [] else rs[0] + Concat(rs[1..])
  }

  lemma {:induction false} FilterAppend(a: string, b: string, P: char -> bool)
    ensures Filter(a + b, P) == Filter(a, P) + Filter(b, P)
  {
    if a != [] {
      assert (a + b)[1..] == a[1..] + b;
      FilterAppend(a[1..], b, P);
    } else {
      assert a + b == b;
    }
  }

  lemma {:induction false} FilterAll(a: string, P: char -> bool)
    requires forall k :: 0 <= k < |a| ==> P(a[k])
    ensures Filter(a, P) == a
  {
    if a != [] { FilterAll(a[1..], P); }
  }

  /** The runs lose no `P`-character and keep no other character. */
  lemma {:induction false} RunsCoverFilter(s: string, P: char -> bool)
    ensures Concat(Runs(s, P)) == Filter(s, P)
    decreases |s|
  {
    if s != [] {
      if !P(s[0]) {
        RunsCoverFilter(s[1..], P);
      } else {
        var j := LeadingRun(s, P);
        RunsCoverFilter(s[j..], P);
        assert s == s[..j] + s[j..];
        FilterAppend(s[..j], s[j..], P);
        FilterAll(s[..j], P);
      }
    }
  }

  /** Python's `' '.join(s.split())`: whitespace collapsed to single spaces. */
  function Collapse(s: string): string {
    Join(Runs(s, NotSpace), " ")
  }

  /** No whitespace at either end, and every whitespace character is a single
      space standing between two non-whitespace characters. */
  predicate Collapsed(r: string) {
    forall k :: 0 <= k < |r| && IsSpace(r[k]) ==>
      r[k] == ' ' && 0 < k < |r| - 1 && !IsSpace(r[k - 1]) && !IsSpace(r[k + 1])
  }

  predicate SpaceFreeWords(ws: seq<string>) {
    forall i :: 0 <= i < |ws| ==> ws[i] != [] && forall k :: 0 <= k < |ws[i]| ==> !IsSpace(ws[i][k])
  }

  lemma {:induction false} JoinWordsCollapsed(ws: seq<string>)
    requires SpaceFreeWords(ws)
    ensures Collapsed(Join(ws, " "))
  {
    if |ws| >= 2 {
      var w, t := ws[0], Join(ws[1..], " ");
      JoinWordsCollapsed(ws[1..]);
      var r := w + " " + t;
      assert Join(ws, " ") == r;
      assert t != [] && !IsSpace(t[0]) by {
        assert ws[1..][0] == ws[1] && ws[1] != [];
        JoinStartsWithFirst(ws[1..]);
      }
      assert forall k :: 0 <= k < |w| ==> r[k] == w[k];
      forall k | |w| <= k < |r| && IsSpace(r[k])
        ensures r[k] == ' ' && 0 < k < |r| - 1 && !IsSpace(r[k - 1]) && !IsSpace(r[k + 1])
      {
        if k == |w| {
          assert r[k + 1] == t[0] && r[k - 1] == w[|w| - 1];
        } else {
          assert r[k] == t[k - |w| - 1];
          assert r[k + 1] == t[k - |w|];
          if k - 1 > |w| { assert r[k - 1] == t[k - |w| - 2]; }
        }
      }
    }
  }

  lemma {:induction false} JoinStartsWithFirst(ws: seq<string>)
    requires |ws| >= 1
    ensures |Join(ws, " ") | >= |ws[0]| && Join(ws, " ")[..|ws[0]|] == ws[0]
  {
  }

  /** Splitting the joined words gives the words back. */
  lemma {:induction false} RunsOfJoinedWords(ws: seq<string>)
    requires SpaceFreeWords(ws)
    ensures Runs(Join(ws, " "), NotSpace) == ws
  {
    if |ws| == 1 {
      var w := ws[0];
      LeadingRunAppend(w, [], NotSpace);
      assert w + [] == w;
      assert w[|w|..] == [];
    } else if |ws| >= 2 {
      var t := Join(ws[1..], " ");
      assert Join(ws, " ") == ws[0] + " " + t;
      RunsAfterWord(ws[0], t);
      RunsOfJoinedWords(ws[1..]);
    }
  }

  /** A word followed by a space splits off as the first run. */
  lemma RunsAfterWord(w: string, t: string)
    requires w != [] && forall k :: 0 <= k < |w| ==> !IsSpace(w[k])
    ensures Runs(w + " " + t, NotSpace) == [w] + Runs(t, NotSpace)
  {
    var s := w + " " + t;
    LeadingRunAppend(w, " " + t, NotSpace);
    assert s == w + (" " + t);
    assert s[..|w|] == w;
    assert s[|w|..] == " " + t;
    assert (" " + t)[1..] == t;
  }

  /** The collapsed text is well-formed and collapsing it again changes nothing. */
  lemma CollapseIdempotent(s: string)
    ensures Collapsed(Collapse(s))
    ensures Collapse(Collapse(s)) == Collapse(s)
  {
    var ws := Runs(s, NotSpace);
    assert SpaceFreeWords(ws) by {
      forall i | 0 <= i < |ws| ensures ws[i] != [] && forall k :: 0 <= k < |ws[i]| ==> !IsSpace(ws[i][k]) {
        assert ws[i] in ws;
      }
    }
    JoinWordsCollapsed(ws);
    RunsOfJoinedWords(ws);
  }

  // ---------------------------------------------------------------------
  // Integers written in decimal

  function Pow10(n: nat): (p: nat)
    ensures p >= 1
  {
    if n == 0 then 1 else 10 * Pow10(n - 1)
  }

  /** The value of a string of ASCII digits, as `int(d)` reads it. */
  function DigitsValue(d: string): nat
    requires AllDigits(d)
  {
    if d == [] then 0 else 10 * DigitsValue(d[..|d| - 1]) + (d[|d| - 1] as int - '0' as int)
  }

  lemma {:induction false} DigitsValueBound(d: string)
    requires AllDigits(d)
    ensures DigitsValue(d) < Pow10(|d|)
  {
    if d != [] { DigitsValueBound(d[..|d| - 1]); }
  }

  /** Python's `str.strip()` and `str.lstrip()` with no argument. */
  function LStrip(s: string): (r: string)
    ensures |r| <= |s| && r == s[|s| - |r|..]
    ensures r == [] || !IsSpace(r[0])
  {
    s[LeadingRun(s, IsSpace)..]
  }

  function Strip(s: string): (r: string)
    ensures r == [] || (!IsSpace(r[0]) && !IsSpace(r[|r| - 1]))
    decreases |s|
  {
    var t := LStrip(s);
    if t == [] || !IsSpace(t[|t| - 1]) then t
    else Strip(t[..|t| - 1])
  }

  /** Stripping a string that neither starts nor ends with whitespace changes nothing. */
  lemma StripUnpadded(s: string)
    requires s == [] || (!IsSpace(s[0]) && !IsSpace(s[|s| - 1]))
    ensures Strip(s) == s
  {
    if s != [] {
      assert LeadingRun(s, IsSpace) == 0;
      assert LStrip(s) == s;
    }
  }
}
