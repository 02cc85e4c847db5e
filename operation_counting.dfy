/**
 * `count_operations` and `OPERATIONS` of FeatureExtractor.py: the number of
 * non-overlapping occurrences of each operator, summed. An operator made of
 * letters must stand as a whole word (`\b` on both sides); any other is
 * matched anywhere.
 */
module OperationCounting {
  import opened Strings

  /** `OPERATIONS`, line 4. */
  const Operations: seq<string> := ["+", "-", "*", "/", "%", "//", "^", "&", "|", "<<", ">>", "\U{00B7}", "xor", "mod"]

  /** `op.isalpha()` for an operator spelled in ASCII. */
  predicate IsAlpha(op: string) {
    op != [] && forall k :: 0 <= k < |op| ==> IsAsciiLetter(op[k])
  }

  /** `\b` at index `i` before a word character, and at `j` after one. */
  predicate BoundaryBefore(s: string, i: nat) {
    i == 0 || (i <= |s| && !IsWordChar(s[i - 1]))
  }

  predicate BoundaryAfter(s: string, j: nat) {
    j >= |s| || !IsWordChar(s[j])
  }

  /** Does the search pattern for `op` match at index `p`? */
  predicate MatchesAt(s: string, op: string, p: nat) {
    OccursAt(s, op, p) && (IsAlpha(op) ==> BoundaryBefore(s, p) && BoundaryAfter(s, p + |op|))
  }

  /** `len(re.findall(pattern, s[p:]))` for a non-empty operator: a match
      is counted and the search resumes after it. */
  function CountFrom(s: string, op: string, p: nat): (n: nat)
    requires op != [] && p <= |s|
    ensures n * |op| <= |s| - p
    decreases |s| - p
  {
    if p == |s| then 0
    else if MatchesAt(s, op, p) then 1 + CountFrom(s, op, p + |op|)
    else CountFrom(s, op, p + 1)
  }

  /** The count for one operator; an empty pattern matches at every index. */
  function Count(s: string, op: string): nat {
    if op == [] then |s| + 1 else CountFrom(s, op, 0)
  }

  /** The sum over a list of operators. */
  function TotalCount(s: string, ops: seq<string>): nat {
    if ops == [] then 0 else TotalCount(s, ops[..|ops| - 1]) + Count(s, ops[|ops| - 1])
  }

  /** `count_operations(text, operations)`, lines 88-97. */
  method CountOperations(text: string, operations: seq<string>) returns (total: nat)
    ensures total == TotalCount(text, operations)
  {
    total := 0;
    var i := 0;
    while i < |operations|
      invariant 0 <= i <= |operations|
      invariant total == TotalCount(text, operations[..i])
    {
      assert operations[..i + 1][..i] == operations[..i];
      var op := operations[i];
      var n := 0;
      if op == [] {
        n := |text| + 1;
      } else {
        n := CountMatches(text, op);
      }
      total := total + n;
      i := i + 1;
    }
    assert operations[..|operations|] == operations;
  }

  /** The `re.findall` scan for one non-empty operator. */
  method CountMatches(text: string, op: string) returns (n: nat)
    requires op != []
    ensures n == CountFrom(text, op, 0)
  {
    n := 0;
    var p := 0;
    while p < |text|
      invariant 0 <= p <= |text|
      invariant n + CountFrom(text, op, p) == CountFrom(text, op, 0)
      decreases |text| - p
    {
      if MatchesAt(text, op, p) {
        n := n + 1;
        p := p + |op|;
      } else {
        p := p + 1;
      }
    }
  }

  // ---------------------------------------------------------------------
  // Properties

  /** An operator is counted at least once exactly when its pattern matches
      somewhere. */
  lemma {:induction false} CountPositiveIffMatch(s: string, op: string, p: nat)
    requires op != [] && p <= |s|
    ensures CountFrom(s, op, p) > 0 <==> exists k :: p <= k < |s| && MatchesAt(s, op, k)
    decreases |s| - p
  {
    if p < |s| && !MatchesAt(s, op, p) {
      CountPositiveIffMatch(s, op, p + 1);
      if exists k :: p <= k < |s| && MatchesAt(s, op, k) {
        var k :| p <= k < |s| && MatchesAt(s, op, k);
        assert k != p;
      }
    }
  }

  /** A one-character symbol is counted once per occurrence. */
  lemma {:induction false} SymbolCountIsOccurrences(s: string, c: char, p: nat)
    requires p <= |s| && !IsAlpha([c])
    ensures CountFrom(s, [c], p) == multiset(s[p..])[c]
    decreases |s| - p
  {
    if p < |s| {
      SymbolCountIsOccurrences(s, c, p + 1);
      assert s[p..] == [s[p]] + s[p + 1..];
      assert OccursAt(s, [c], p) <==> s[p] == c by {
        assert s[p..p + 1] == [s[p]];
      }
    }
  }

  /** `mod` inside `modulo` is no whole word, but `a mod b` has one. */
  lemma ModuloNotCounted()
    ensures Count("modulo", "mod") == 0
    ensures Count("a mod b", "mod") == 1
  {
    var s := "modulo";
    assert IsAlpha("mod");
    assert !MatchesAt(s, "mod", 0) by { assert IsWordChar(s[3]); }
    assert !OccursAt(s, "mod", 1) by { assert s[1] != 'm'; }
    assert !OccursAt(s, "mod", 2) by { assert s[2] != 'm'; }
    assert !OccursAt(s, "mod", 3) by { assert s[3] != 'm'; }
    assert CountFrom(s, "mod", 4) == 0;
    var t := "a mod b";
    assert !OccursAt(t, "mod", 0) by { assert t[0] != 'm'; }
    assert !OccursAt(t, "mod", 1) by { assert t[1] != 'm'; }
    assert t[2..5] == "mod";
    assert MatchesAt(t, "mod", 2);
    assert CountFrom(t, "mod", 5) == 0;
  }

  /** Symbols match anywhere, overlapping other operators: `x//y` counts
      `/` twice and `//` once. */
  lemma DoubleSlash(x: char, y: char)
    requires x != '/' && y != '/'
    ensures Count([x, '/', '/', y], "/") == 2
    ensures Count([x, '/', '/', y], "//") == 1
  {
    var s := [x, '/', '/', y];
    assert !IsAlpha("/") by { assert !IsAsciiLetter("/"[0]); }
    assert !IsAlpha("//") by { assert !IsAsciiLetter("//"[0]); }
    assert !OccursAt(s, "/", 0) by { assert s[0..1] == [x]; }
    assert OccursAt(s, "/", 1) by { assert s[1..2] == "/"; }
    assert OccursAt(s, "/", 2) by { assert s[2..3] == "/"; }
    assert !OccursAt(s, "/", 3) by { assert s[3..4] == [y]; }
    assert CountFrom(s, "/", 3) == 0;
    assert CountFrom(s, "/", 2) == 1;
    assert CountFrom(s, "/", 1) == 2;
    assert !OccursAt(s, "//", 0) by { assert s[0..2][0] == x; }
    assert OccursAt(s, "//", 1) by { assert s[1..3] == "//"; }
    assert CountFrom(s, "//", 3) == 0 by {
      assert !OccursAt(s, "//", 3);
    }
    assert CountFrom(s, "//", 1) == 1;
  }
}
