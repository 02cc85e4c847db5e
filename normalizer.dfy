/**
 * The statement-text normalisation of src/WebScraper.py: `latex_to_text`,
 * the in-place rewrite of `<sub>`/`<sup>` elements, and the chain of string
 * passes at the end of `clean_rendered_mathjax_html`.
 *
 * The LaTeX converter (`LatexNodes2Text().latex_to_text`) and the HTML
 * flattening (`BeautifulSoup(...).get_text(separator=' ', strip=True)`) are
 * foreign code; they are parameters of the model.
 */
module Normalizer {
  import opened Strings

  // ---------------------------------------------------------------------
  // latex_to_text

  /** `latex_to_text(latex)`, lines 9-12: the empty string comes back empty
      without the converter being called. */
  function LatexToText(latex: string, convert: string -> string): (r: string)
    ensures latex == [] ==> r == []
    ensures latex != [] ==> r == convert(latex)
  {
    if latex == [] then [] else convert(latex)
  }

  // ---------------------------------------------------------------------
  // Line 31: re.sub(r'\$\$\$(.*?)\$\$\$', ...)

  const Delim: string := "$$$"

  /** Where the lazy `(.*?)\$\$\$` stops when started at `q`: the first `$$$`
      at or after `q`, provided no newline comes before it (`.` does not
      match a newline). */
  function CloseFrom(s: string, q: nat): (r: Option<nat>)
    requires q <= |s|
    ensures r.Some? ==> q <= r.value && OccursAt(s, Delim, r.value)
    ensures r.Some? ==> forall k :: q <= k < r.value ==> s[k] != '\n' && !OccursAt(s, Delim, k)
    ensures r.None? ==> forall k :: q <= k <= |s| && OccursAt(s, Delim, k) ==> exists m :: q <= m < k && s[m] == '\n'
    decreases |s| - q
  {
    if OccursAt(s, Delim, q) then Some(q)
    else if q == |s| || s[q] == '\n' then None
    else CloseFrom(s, q + 1)
  }

  /** Every `$$$…$$$` segment, leftmost first, is replaced by the converter's
      reading of its inside; everything else is copied. */
  function ReplaceMath(s: string, convert: string -> string): string
    decreases |s|
  {
    if s == [] then []
    else if OccursAt(s, Delim, 0) && CloseFrom(s, 3).Some? then
      var k := CloseFrom(s, 3).value;
      LatexToText(s[3..k], convert) + ReplaceMath(s[k + 3..], convert)
    else [s[0]] + ReplaceMath(s[1..], convert)
  }

  /** Where a pattern matched at the start position: `mid` is where its
      captured group ends or begins and `stop` where the match ends, as
      each matcher below documents. */
  datatype Hit = Miss | Hit(mid: nat, stop: nat)

  // ---------------------------------------------------------------------
  // Line 32: re.sub(r'\\(texttt|mathrm|underline|textsuperscript)\{(.*?)\}', r'\2', ...)

  const Macros: seq<string> := ["texttt", "mathrm", "underline", "textsuperscript"]

  /** `\name{` for the macro `m`, spelled out. */
  function Opening(m: nat): (o: string)
    requires m < |Macros|
    ensures |o| == |Macros[m]| + 2 && o[0] == '\\'
  {
    ["\\texttt{", "\\mathrm{", "\\underline{", "\\textsuperscript{"][m]
  }

  /** Each opening is the backslash, the macro's name and `{`. */
  lemma OpeningSpelled(m: nat)
    requires m < |Macros|
    ensures Opening(m) == "\\" + Macros[m] + "{"
  {
  }

  /** The opening `\name{` of a formatting macro at the start of `s`, tried
      in the order of the alternation: where its argument begins. */
  function OpenFrom(s: string, i: nat): (r: Option<nat>)
    requires i <= |Macros|
    ensures r.Some? ==> r.value >= 2
    decreases |Macros| - i
  {
    if i == |Macros| then None
    else if OccursAt(s, Opening(i), 0) then Some(|Macros[i]| + 2)
    else OpenFrom(s, i + 1)
  }

  /** An opening is found exactly when one of the macros opens at the start,
      and the argument then begins right after that macro's `\name{`. */
  lemma {:induction false} OpenFromFinds(s: string, i: nat)
    requires i <= |Macros|
    ensures OpenFrom(s, i).Some? ==> exists m :: i <= m < |Macros| && OpenFrom(s, i).value == |Macros[m]| + 2 && OccursAt(s, Opening(m), 0)
    ensures OpenFrom(s, i).None? ==> forall m :: i <= m < |Macros| ==> !OccursAt(s, Opening(m), 0)
    decreases |Macros| - i
  {
    if i < |Macros| && !OccursAt(s, Opening(i), 0) {
      OpenFromFinds(s, i + 1);
    }
  }

  /** Where the lazy `(.*?)\}` stops when started at `q`: the first `}` at or
      after `q`, provided no newline comes before it. */
  function BraceFrom(s: string, q: nat): (r: Option<nat>)
    requires q <= |s|
    ensures r.Some? ==> q <= r.value < |s| && s[r.value] == '}'
    decreases |s| - q
  {
    if q == |s| || s[q] == '\n' then None
    else if s[q] == '}' then Some(q)
    else BraceFrom(s, q + 1)
  }

  /** The `}` found is the first one, and no newline comes before it. */
  lemma {:induction false} BraceFromFirst(s: string, q: nat)
    requires q <= |s|
    ensures BraceFrom(s, q).Some? ==> forall k :: q <= k < BraceFrom(s, q).value ==> s[k] != '}' && s[k] != '\n'
    decreases |s| - q
  {
    if q < |s| && s[q] != '\n' && s[q] != '}' {
      BraceFromFirst(s, q + 1);
    }
  }

  /** The macro match at the start of `s`: where the argument starts (`mid`) and
      the index of the `}` that closes it (`stop`). */
  function MacroMatch(s: string): (r: Hit)
    ensures r.Hit? ==> 2 <= r.mid <= r.stop < |s| && s[r.stop] == '}'
  {
    var open := if s == [] || s[0] != '\\' then None else OpenFrom(s, 0);
    if open.Some? && open.value <= |s| then
      match BraceFrom(s, open.value)
      case Some(k) => Hit(open.value, k)
      case None => Miss
    else Miss
  }

  /** Each formatting macro is replaced by its argument up to the first `}`. */
  function StripMacros(s: string): string
    decreases |s|, 1
  {
    if s == [] then []
    else match MacroMatch(s)
      case Hit(mid, stop) => StripHit(s, mid, stop)
      case Miss => [s[0]] + StripMacros(s[1..])
  }

  /** A macro matched at the start of `s`: its argument, then the rest. */
  function StripHit(s: string, mid: nat, stop: nat): string
    requires mid <= stop < |s|
    decreases |s|, 0
  {
    s[mid..stop] + StripMacros(s[stop + 1..])
  }

  // ---------------------------------------------------------------------
  // Lines 34-37: the chained str.replace calls

  /** The pairs of lines 34-37, in the order they are applied. */
  const Symbols: seq<(string, string)> := [
    ("\\le", "\U{2264}"), ("\\ge", "\U{2265}"),
    ("\\cdot", "\U{00B7}"), ("\\times", "\U{00D7}"),
    ("\\to", "\U{2192}"), ("\\rightarrow", "\U{2192}"),
    ("\\ldots", "..."), ("\\dots", "...")
  ]

  predicate NonEmptyPatterns(syms: seq<(string, string)>) {
    forall i :: 0 <= i < |syms| ==> syms[i].0 != []
  }

  /** Applies the replacements one after the other. */
  function ReplaceEach(s: string, syms: seq<(string, string)>): string
    requires NonEmptyPatterns(syms)
    decreases |syms|
  {
    if syms == [] then s else ReplaceEach(ReplaceAll(s, syms[0].0, syms[0].1), syms[1..])
  }

  function ReplaceSymbols(s: string): string {
    ReplaceEach(s, Symbols)
  }

  // ---------------------------------------------------------------------
  // Line 42: re.sub(r'\b([^\s]+)\s+\1\b', r'\1', text)

  /** `\b` at index `i`: a word character on exactly one side. */
  predicate Boundary(s: string, i: nat)
    requires i <= |s|
  {
    (i > 0 && IsWordChar(s[i - 1])) != (i < |s| && IsWordChar(s[i]))
  }

  /** The match at `p`: the repeated word ends at `r.mid`, the match at `r.stop`.
      `[^\s]+` must reach the end of the run of non-whitespace, as `\s+`
      follows it, and `\s+` must take all the whitespace, as the repeated
      word starts with a non-whitespace character; no other split exists. */
  function RepeatAt(s: string, p: nat): (r: Hit)
    requires p <= |s|
    ensures r.Hit? ==> p < r.mid < r.stop <= |s|
    ensures r.Hit? ==> forall k :: p <= k < r.mid ==> !IsSpace(s[k])
    ensures r.Hit? ==> Boundary(s, p) && Boundary(s, r.stop)
    ensures r.Hit? ==> r.stop - (r.mid - p) > r.mid && OccursAt(s, s[p..r.mid], r.stop - (r.mid - p))
  {
    if !Boundary(s, p) then Miss
    else
      var e := Span(s, p, NotSpace);
      var f := Span(s, e, IsSpace);
      if e == p || f == e || !OccursAt(s, s[p..e], f) || !Boundary(s, f + (e - p)) then Miss
      else Hit(e, f + (e - p))
  }

  function DedupFrom(s: string, p: nat): (r: string)
    requires p <= |s|
    ensures |r| <= |s| - p
    decreases |s| - p, 1
  {
    if p == |s| then [] else DedupAt(s, p, RepeatAt(s, p))
  }

  /** The dedup pass at `p`, given the match found there. */
  function DedupAt(s: string, p: nat, r: Hit): (t: string)
    requires p < |s| && (r.Hit? ==> p < r.mid < r.stop <= |s|)
    ensures |t| <= |s| - p
    decreases |s| - p, 0
  {
    if r.Hit? then s[p..r.mid] + DedupFrom(s, r.stop)
    else [s[p]] + DedupFrom(s, p + 1)
  }

  /** A word immediately repeated after whitespace is kept once, in a single
      left-to-right pass. */
  function DedupWords(s: string): (r: string)
    ensures |r| <= |s|
  {
    DedupFrom(s, 0)
  }

  // ---------------------------------------------------------------------
  // Lines 29-45: the whole chain

  /** The text `clean_rendered_mathjax_html` returns for the rendered page
      `html` (line 29 onwards). */
  function CleanText(html: string, convert: string -> string, flatten: string -> string): (text: string)
    ensures Collapsed(text) && Collapse(text) == text
  {
    var t := ReplaceSymbols(StripMacros(ReplaceMath(html, convert)));
    var deduped := DedupWords(flatten(t));
    CollapseIdempotent(deduped);
    Collapse(deduped)
  }

  // ---------------------------------------------------------------------
  // Lines 17-20: <sub> and <sup> replaced in place

  /** A node of the parsed page: an element with its text, or a string. */
  datatype Node = Element(tag: string, text: string) | Text(content: string)

  /** `get_text()` of a node. */
  function TextOf(n: Node): string {
    if n.Element? then n.text else n.content
  }

  function AfterSub(n: Node): Node {
    if n.Element? && n.tag == "sub" then Text("_" + n.text) else n
  }

  function AfterSup(n: Node): Node {
    if n.Element? && n.tag == "sup" then Text("^" + n.text) else n
  }

  /** The marker a node's text gains. */
  function Marker(n: Node): string {
    if n.Element? && n.tag == "sub" then "_"
    else if n.Element? && n.tag == "sup" then "^"
    else ""
  }

  /** The two loops of lines 17-20: every `sub` element, then every `sup`
      element, is replaced by a string of its text behind a marker. */
  method RewriteSubSup(nodes: array<Node>)
    modifies nodes
    ensures forall i :: 0 <= i < nodes.Length ==> nodes[i] == AfterSup(AfterSub(old(nodes[i])))
  {
    for i := 0 to nodes.Length
      invariant forall k :: 0 <= k < i ==> nodes[k] == AfterSub(old(nodes[k]))
      invariant forall k :: i <= k < nodes.Length ==> nodes[k] == old(nodes[k])
    {
      if nodes[i].Element? && nodes[i].tag == "sub" {
        nodes[i] := Text("_" + nodes[i].text);
      }
    }
    for i := 0 to nodes.Length
      invariant forall k :: 0 <= k < i ==> nodes[k] == AfterSup(AfterSub(old(nodes[k])))
      invariant forall k :: i <= k < nodes.Length ==> nodes[k] == AfterSub(old(nodes[k]))
    {
      if nodes[i].Element? && nodes[i].tag == "sup" {
        nodes[i] := Text("^" + nodes[i].text);
      }
    }
  }

  // ---------------------------------------------------------------------
  // Properties

  /** After the rewrite no `sub` or `sup` element is left, and each node's
      text is its old text behind its marker. */
  lemma RewriteEffect(n: Node)
    ensures var r := AfterSup(AfterSub(n));
      && !(r.Element? && (r.tag == "sub" || r.tag == "sup"))
      && TextOf(r) == Marker(n) + TextOf(n)
  {
  }

  /** A text without `$$$` passes the math step unchanged. */
  lemma {:induction false} MathFreeUnchanged(s: string, convert: string -> string)
    requires !Contains(s, Delim)
    ensures ReplaceMath(s, convert) == s
    decreases |s|
  {
    if s != [] {
      assert !OccursAt(s, Delim, 0);
      assert !Contains(s[1..], Delim) by {
        forall k | 0 <= k <= |s[1..]| && OccursAt(s[1..], Delim, k) ensures false {
          assert s[k + 1..k + 1 + |Delim|] == s[1..][k..k + |Delim|];
          assert OccursAt(s, Delim, k + 1);
        }
      }
      MathFreeUnchanged(s[1..], convert);
    }
  }

  /** Text before the first `$` is copied as it is. */
  lemma {:induction false} DollarFreePrefix(a: string, t: string, convert: string -> string)
    requires '$' !in a
    ensures ReplaceMath(a + t, convert) == a + ReplaceMath(t, convert)
    decreases |a|
  {
    if a == [] {
      assert a + t == t;
    } else {
      var s := a + t;
      assert s[0] == a[0] && a[0] != '$';
      assert s[1..] == a[1..] + t;
      assert '$' !in a[1..] by {
        forall k | 0 <= k < |a[1..]| ensures a[1..][k] != '$' { assert a[1..][k] == a[k + 1]; }
      }
      calc {
        ReplaceMath(s, convert);
        { MathCopiesHead(s, convert); }
        [a[0]] + ReplaceMath(a[1..] + t, convert);
        { DollarFreePrefix(a[1..], t, convert); }
        [a[0]] + (a[1..] + ReplaceMath(t, convert));
        { assert a == [a[0]] + a[1..]; }
        a + ReplaceMath(t, convert);
      }
    }
  }

  /** A first character other than `$` is copied. */
  lemma MathCopiesHead(s: string, convert: string -> string)
    requires s != [] && s[0] != '$'
    ensures ReplaceMath(s, convert) == [s[0]] + ReplaceMath(s[1..], convert)
  {
    assert !OccursAt(s, Delim, 0) by {
      if 3 <= |s| { assert s[0..3][0] == s[0]; }
    }
  }

  /** The lazy search stops at the first `$$$` when none of the characters
      before it is a `$` or a newline. */
  lemma {:induction false} CloseAfterPlain(s: string, q: nat, n: nat)
    requires q + n <= |s| && OccursAt(s, Delim, q + n)
    requires '$' !in s[q..q + n] && '\n' !in s[q..q + n]
    ensures CloseFrom(s, q) == Some(q + n)
    decreases n
  {
    if n > 0 {
      assert s[q] == s[q..q + n][0];
      assert !OccursAt(s, Delim, q) by { assert s[q..q + 3][0] == s[q]; }
      assert '$' !in s[q + 1..q + n] && '\n' !in s[q + 1..q + n] by {
        assert s[q + 1..q + n] == s[q..q + n][1..];
      }
      CloseAfterPlain(s, q + 1, n - 1);
    }
  }

  /** One `$$$…$$$` segment is replaced by the converter's reading of its
      inside; the text on either side is kept. */
  lemma MathSegment(a: string, x: string, b: string, convert: string -> string)
    requires '$' !in a && '$' !in x && '\n' !in x
    ensures ReplaceMath(a + Delim + x + Delim + b, convert) == a + LatexToText(x, convert) + ReplaceMath(b, convert)
  {
    var t := Delim + x + (Delim + b);
    assert a + Delim + x + Delim + b == a + t;
    assert t[..3] == Delim && t[3..3 + |x|] == x && t[3 + |x|..3 + |x| + 3] == Delim && t[3 + |x| + 3..] == b by {
      SegmentShape(x, Delim + b);
      SegmentShape([], b);
      SliceOfSuffix(t, 3 + |x|, 0, 3);
      SliceOfSuffix(t, 3 + |x|, 3, 3);
    }
    SegmentAfterPlain(a, t, x, b, convert);
  }

  /** The pieces of `$$$` + `x` + `rest`. */
  lemma SegmentShape(x: string, rest: string)
    ensures (Delim + x + rest)[..3] == Delim
    ensures (Delim + x + rest)[3..3 + |x|] == x
    ensures (Delim + x + rest)[3 + |x|..] == rest
  {
  }

  /** A math segment `t` laid out as `$$$` `x` `$$$` `b`, after `$`-free text. */
  lemma SegmentAfterPlain(a: string, t: string, x: string, b: string, convert: string -> string)
    requires '$' !in a && '$' !in x && '\n' !in x
    requires 3 + |x| + 3 <= |t| && t[..3] == Delim && t[3..3 + |x|] == x
    requires t[3 + |x|..3 + |x| + 3] == Delim && t[3 + |x| + 3..] == b
    ensures ReplaceMath(a + t, convert) == a + LatexToText(x, convert) + ReplaceMath(b, convert)
  {
    DollarFreePrefix(a, t, convert);
    assert OccursAt(t, Delim, 0) && OccursAt(t, Delim, 3 + |x|);
    CloseAfterPlain(t, 3, |x|);
  }

  /** A text without a backslash passes the macro step unchanged. */
  lemma {:induction false} BackslashFreeUnchanged(s: string)
    requires '\\' !in s
    ensures StripMacros(s) == s
    decreases |s|
  {
    if s != [] {
      assert MacroMatch(s).Miss? by {
        OpenFromFinds(s, 0);
        forall m | 0 <= m < |Macros| && |Opening(m)| <= |s| ensures s[..|Opening(m)|][0] != Opening(m)[0] {
          assert s[..|Opening(m)|][0] == s[0];
        }
      }
      assert '\\' !in s[1..] by {
        forall k | 0 <= k < |s[1..]| ensures s[1..][k] != '\\' {
          assert s[1..][k] == s[k + 1];
        }
      }
      BackslashFreeUnchanged(s[1..]);
    }
  }

  /** The search for `}` stops at the first one when no newline precedes it. */
  lemma {:induction false} BraceAfterPlain(s: string, q: nat, n: nat)
    requires q + n < |s| && s[q + n] == '}'
    requires '}' !in s[q..q + n] && '\n' !in s[q..q + n]
    ensures BraceFrom(s, q) == Some(q + n)
    decreases n
  {
    if n > 0 {
      assert s[q] == s[q..q + n][0];
      assert '}' !in s[q + 1..q + n] && '\n' !in s[q + 1..q + n] by {
        assert s[q + 1..q + n] == s[q..q + n][1..];
      }
      BraceAfterPlain(s, q + 1, n - 1);
    }
  }

  /** `\name{arg}` becomes `arg`, where `arg` runs to the first `}`. */
  lemma MacroArgument(m: nat, arg: string, rest: string)
    requires m < |Macros|
    requires '}' !in arg && '\n' !in arg
    ensures StripMacros(Opening(m) + arg + "}" + rest) == arg + StripMacros(rest)
  {
    var s := Opening(m) + arg + "}" + rest;
    var o := |Opening(m)|;
    assert s[..o] == Opening(m) && s[o..o + |arg|] == arg && s[o + |arg|] == '}' && s[o + |arg| + 1..] == rest by {
      ArgumentShape(Opening(m), arg, rest);
    }
    assert OpenFrom(s, 0) == Some(o) by {
      assert OccursAt(s, Opening(m), 0) by { assert s[0..o] == s[..o]; }
      OpenUnique(s, m);
    }
    MacroAt(s, o, arg, rest);
  }

  /** The pieces of `p` + `arg` + `}` + `rest`. */
  lemma ArgumentShape(p: string, arg: string, rest: string)
    ensures (p + arg + "}" + rest)[..|p|] == p
    ensures (p + arg + "}" + rest)[|p|..|p| + |arg|] == arg
    ensures (p + arg + "}" + rest)[|p| + |arg|] == '}'
    ensures (p + arg + "}" + rest)[|p| + |arg| + 1..] == rest
  {
  }

  /** The same, stated on the positions of one string whose macro argument
      starts at `o`. */
  lemma MacroAt(s: string, o: nat, arg: string, rest: string)
    requires OpenFrom(s, 0) == Some(o) && '}' !in arg && '\n' !in arg
    requires o + |arg| < |s| && s[o..o + |arg|] == arg && s[o + |arg|] == '}' && s[o + |arg| + 1..] == rest
    ensures StripMacros(s) == arg + StripMacros(rest)
  {
    assert BraceFrom(s, o) == Some(o + |arg|) by {
      BraceAfterPlain(s, o, |arg|);
    }
    var k := o + |arg|;
    assert MacroMatch(s) == Hit(o, k);
    StripAtMatch(s, o, k, StripMacros(rest));
  }

  /** One unfolding of the macro step where a macro matches. */
  lemma StripAtMatch(s: string, o: nat, k: nat, tail: string)
    requires MacroMatch(s) == Hit(o, k) && tail == StripMacros(s[k + 1..])
    ensures StripMacros(s) == s[o..k] + tail
  {
    StripUnfold(s);
    StripAtHit(s, o, k, tail);
  }

  lemma StripUnfold(s: string)
    requires s != []
    requires MacroMatch(s).Hit?
    ensures StripMacros(s) == StripHit(s, MacroMatch(s).mid, MacroMatch(s).stop)
  {
  }

  lemma StripAtHit(s: string, o: nat, k: nat, tail: string)
    requires o <= k < |s| && tail == StripMacros(s[k + 1..])
    ensures StripHit(s, o, k) == s[o..k] + tail
  {
  }

  /** At most one macro name opens at a given place, so the alternation's
      order does not matter. */
  lemma OpenUnique(s: string, m: nat)
    requires m < |Macros| && OccursAt(s, Opening(m), 0)
    ensures OpenFrom(s, 0) == Some(|Macros[m]| + 2)
  {
    OpenFromFinds(s, 0);
    forall m' | 0 <= m' < |Macros| && OccursAt(s, Opening(m'), 0) ensures m' == m {
      assert Opening(m')[1] == s[1] == Opening(m)[1] by {
        assert s[..|Opening(m')|][1] == s[1] == s[..|Opening(m)|][1];
      }
      assert Opening(m')[5] == s[5] == Opening(m)[5] by {
        assert s[..|Opening(m')|][5] == s[5] == s[..|Opening(m)|][5];
      }
      MacrosDistinguishable(m, m');
    }
  }

  /** Two different macro openings differ at index 1 or at index 5. */
  lemma MacrosDistinguishable(m: nat, m': nat)
    requires m < |Macros| && m' < |Macros|
    requires Opening(m)[1] == Opening(m')[1] && Opening(m)[5] == Opening(m')[5]
    ensures m == m'
  {
  }

  /** Macro stripping is non-greedy and does not balance braces: for
      example `\mathrm{a{b}c}` becomes `a{bc}`. */
  lemma UnbalancedBraces(m: nat, x: char, y: char, z: char)
    requires m < |Macros|
    requires x !in "}\n\\" && y !in "}\n\\" && z !in "}\n\\"
    ensures StripMacros(Opening(m) + [x, '{', y, '}', z, '}']) == [x, '{', y, z, '}']
  {
    var arg, rest := [x, '{', y], [z, '}'];
    assert Opening(m) + [x, '{', y, '}', z, '}'] == Opening(m) + arg + "}" + rest;
    assert x != '}' && x != '\n' && y != '}' && y != '\n' && z != '\\';
    MacroArgument(m, arg, rest);
    BackslashFreeUnchanged(rest);
    assert arg + rest == [x, '{', y, z, '}'];
  }

  predicate NoBackslash(s: string) {
    forall k :: 0 <= k < |s| ==> s[k] != '\\'
  }

  /** Each pattern starts with a backslash, and no replacement holds a
      character of any pattern. */
  predicate Separated(syms: seq<(string, string)>) {
    && NonEmptyPatterns(syms)
    && (forall i :: 0 <= i < |syms| ==> syms[i].0[0] == '\\' && syms[i].1 != [])
    && (forall i, j, c :: 0 <= i < |syms| && 0 <= j < |syms| && c in syms[j].1 ==> c !in syms[i].0)
  }

  lemma SymbolsSeparated()
    ensures Separated(Symbols)
  {
    forall i, j, c | 0 <= i < |Symbols| && 0 <= j < |Symbols| && c in Symbols[j].1 ensures c !in Symbols[i].0 {
      assert c == '.' || c >= '\U{00B7}';
      assert forall d :: d in Symbols[i].0 ==> d == '\\' || 'a' <= d <= 'z';
    }
  }

  /** Later replacements never bring back a pattern already removed. */
  lemma {:induction false} ReplaceEachKeepsAbsent(s: string, syms: seq<(string, string)>, other: string)
    requires Separated(syms) && other != []
    requires forall j, c :: 0 <= j < |syms| && c in syms[j].1 ==> c !in other
    requires !Contains(s, other)
    ensures !Contains(ReplaceEach(s, syms), other)
    decreases |syms|
  {
    if syms != [] {
      ReplaceKeepsAbsent(s, syms[0].0, syms[0].1, other);
      ReplaceEachKeepsAbsent(ReplaceAll(s, syms[0].0, syms[0].1), syms[1..], other);
    }
  }

  /** After the chain of replacements no pattern is left in the text. */
  lemma {:induction false} ReplaceEachRemoves(s: string, syms: seq<(string, string)>)
    requires Separated(syms)
    ensures forall i :: 0 <= i < |syms| ==> !Contains(ReplaceEach(s, syms), syms[i].0)
    decreases |syms|
  {
    if syms != [] {
      var s' := ReplaceAll(s, syms[0].0, syms[0].1);
      ReplaceRemoves(s, syms[0].0, syms[0].1);
      ReplaceEachKeepsAbsent(s', syms[1..], syms[0].0);
      ReplaceEachRemoves(s', syms[1..]);
      forall i | 1 <= i < |syms| ensures !Contains(ReplaceEach(s, syms), syms[i].0) {
        assert syms[i].0 == syms[1..][i - 1].0;
      }
    }
  }

  /** Every LaTeX symbol macro of lines 34-37 is gone after the step. */
  lemma SymbolsReplaced(s: string)
    ensures forall i :: 0 <= i < |Symbols| ==> !Contains(ReplaceSymbols(s), Symbols[i].0)
  {
    SymbolsSeparated();
    ReplaceEachRemoves(s, Symbols);
  }

  /** A text without a backslash passes the replacements unchanged. */
  lemma {:induction false} ReplaceEachBackslashFree(s: string, syms: seq<(string, string)>)
    requires Separated(syms) && NoBackslash(s)
    ensures ReplaceEach(s, syms) == s
    decreases |syms|
  {
    if syms != [] {
      var pat := syms[0].0;
      assert !Contains(s, pat) by {
        forall k | 0 <= k < |s| && k + |pat| <= |s| ensures !OccursAt(s, pat, k) {
          assert s[k..k + |pat|][0] == s[k];
        }
      }
      ReplaceAbsent(s, syms[0].0, syms[0].1);
      ReplaceEachBackslashFree(s, syms[1..]);
    }
  }

  /** `\le` is replaced first, so `\leq` becomes `≤q`. */
  lemma LeqKeepsItsQ()
    ensures ReplaceSymbols("\\leq") == "\U{2264}q"
  {
    var s := "\\leq";
    assert OccursAt(s, "\\le", 0) by { assert s[0..3] == "\\le"; }
    assert ReplaceFrom(s, "\\le", "\U{2264}", 3) == "q" by {
      assert !OccursAt(s, "\\le", 3);
    }
    assert ReplaceAll(s, "\\le", "\U{2264}") == "\U{2264}q";
    SymbolsSeparated();
    assert Separated(Symbols[1..]);
    ReplaceEachBackslashFree("\U{2264}q", Symbols[1..]);
  }

  /** With no whitespace from `p` on, the dedup pass copies the rest. */
  lemma {:induction false} DedupNoSpace(s: string, p: nat)
    requires p <= |s|
    requires forall k :: p <= k < |s| ==> !IsSpace(s[k])
    ensures DedupFrom(s, p) == s[p..]
    decreases |s| - p
  {
    if p < |s| {
      assert Span(s, p, NotSpace) == |s|;
      assert RepeatAt(s, p) == Miss;
      DedupUnfold(s, p);
      DedupNoSpace(s, p + 1);
      assert s[p..] == [s[p]] + s[p + 1..];
    }
  }

  lemma DedupUnfold(s: string, p: nat)
    requires p < |s|
    ensures DedupFrom(s, p) == DedupAt(s, p, RepeatAt(s, p))
  {
  }

  lemma DedupAtMiss(s: string, p: nat)
    requires p < |s|
    ensures DedupAt(s, p, Miss) == [s[p]] + DedupFrom(s, p + 1)
  {
  }

  lemma DedupAtHit(s: string, p: nat, e: nat, m: nat)
    requires p < e < m <= |s|
    ensures DedupAt(s, p, Hit(e, m)) == s[p..e] + DedupFrom(s, m)
  {
  }

  /** A non-empty run of word characters. */
  predicate Word(w: string) {
    w != [] && forall k :: 0 <= k < |w| ==> IsWordChar(w[k])
  }

  lemma WordCharNotSpace(c: char)
    requires IsWordChar(c)
    ensures !IsSpace(c)
  {
  }

  /** `Span` over non-whitespace stops at the space after a word. */
  lemma {:induction false} SpanOverWord(s: string, i: nat, n: nat)
    requires i + n < |s| && s[i + n] == ' '
    requires forall k :: i <= k < i + n ==> IsWordChar(s[k])
    ensures Span(s, i, NotSpace) == i + n
    decreases n
  {
    if n > 0 {
      WordCharNotSpace(s[i]);
      SpanOverWord(s, i + 1, n - 1);
    }
  }

  /** In `w w…` with a space or the end after the second `w`, the first two
      words match. */
  lemma PairMatches(s: string, n: nat)
    requires 2 * n + 1 <= |s| && Word(s[..n])
    requires s[n] == ' ' && s[n + 1..2 * n + 1] == s[..n]
    requires 2 * n + 1 == |s| || s[2 * n + 1] == ' '
    ensures RepeatAt(s, 0) == Hit(n, 2 * n + 1)
  {
    PairSpans(s, n);
    PairEcho(s, n);
    RepeatFound(s, 0, n, n + 1);
  }

  /** The first word and the space after it are the two spans. */
  lemma PairSpans(s: string, n: nat)
    requires 2 * n + 1 <= |s| && Word(s[..n])
    requires s[n] == ' ' && s[n + 1..2 * n + 1] == s[..n]
    ensures Span(s, 0, NotSpace) == n && Span(s, n, IsSpace) == n + 1 && Boundary(s, 0)
  {
    assert Span(s, 0, NotSpace) == n && Boundary(s, 0) by {
      forall k | 0 <= k < n ensures IsWordChar(s[k]) {
        assert s[k] == s[..n][k];
      }
      SpanOverWord(s, 0, n);
    }
    assert s[n + 1] == s[..n][0];
    WordCharNotSpace(s[n + 1]);
  }

  /** The second word repeats the first and ends at a word boundary. */
  lemma PairEcho(s: string, n: nat)
    requires 2 * n + 1 <= |s| && Word(s[..n])
    requires s[n + 1..2 * n + 1] == s[..n]
    requires 2 * n + 1 == |s| || s[2 * n + 1] == ' '
    ensures OccursAt(s, s[0..n], n + 1) && Boundary(s, 2 * n + 1)
  {
    assert OccursAt(s, s[0..n], n + 1) by {
      assert s[0..n] == s[..n];
    }
    assert s[2 * n] == s[n + 1..2 * n + 1][n - 1] == s[..n][n - 1];
  }

  /** The pattern matches at `p` once its pieces are in place. */
  lemma RepeatFound(s: string, p: nat, e: nat, f: nat)
    requires p < e < f <= |s| && Boundary(s, p)
    requires Span(s, p, NotSpace) == e && Span(s, e, IsSpace) == f
    requires OccursAt(s, s[p..e], f) && Boundary(s, f + (e - p))
    ensures RepeatAt(s, p) == Hit(e, f + (e - p))
  {
  }

  /** A word written twice is kept once. */
  lemma RepeatedOnce(w: string)
    requires Word(w)
    ensures DedupWords(w + " " + w) == w
  {
    var s := w + " " + w;
    var n := |w|;
    assert s[..n] == w && s[n + 1..2 * n + 1] == w;
    PairMatches(s, n);
    DedupUnfold(s, 0);
    DedupAtHit(s, 0, n, 2 * n + 1);
    assert s[0..n] == w;
  }

  /** The pass is not repeated: a word written three times is kept twice. */
  lemma ThreeTimesKeepsTwo(w: string)
    requires Word(w)
    ensures DedupWords(w + " " + w + " " + w) == w + " " + w
  {
    var n := |w|;
    var s := w + " " + w + " " + w;
    assert s[..n] == w && s[n + 1..2 * n + 1] == w && s[2 * n + 2..] == w;
    assert s[n] == ' ' && s[2 * n + 1] == ' ';
    ThreeAt(s, n);
  }

  lemma ThreeAt(s: string, n: nat)
    requires |s| == 3 * n + 2 && Word(s[..n])
    requires s[n] == ' ' && s[2 * n + 1] == ' '
    requires s[n + 1..2 * n + 1] == s[..n] && s[2 * n + 2..] == s[..n]
    ensures DedupFrom(s, 0) == s[..n] + " " + s[..n]
  {
    var p := 2 * n + 1;
    FirstPairKept(s, n);
    SpaceCopied(s, p);
    LastWordCopied(s, n);
    assert s[0..n] == s[..n];
  }

  /** The first two words of `w w w` collapse into one. */
  lemma FirstPairKept(s: string, n: nat)
    requires |s| == 3 * n + 2 && Word(s[..n])
    requires s[n] == ' ' && s[2 * n + 1] == ' '
    requires s[n + 1..2 * n + 1] == s[..n]
    ensures DedupFrom(s, 0) == s[0..n] + DedupFrom(s, 2 * n + 1)
  {
    PairMatches(s, n);
    DedupUnfold(s, 0);
    DedupAtHit(s, 0, n, 2 * n + 1);
  }

  /** A space where no word starts is copied. */
  lemma SpaceCopied(s: string, p: nat)
    requires p < |s| && s[p] == ' '
    ensures DedupFrom(s, p) == [s[p]] + DedupFrom(s, p + 1)
  {
    assert Span(s, p, NotSpace) == p;
    assert RepeatAt(s, p) == Miss;
    DedupUnfold(s, p);
    DedupAtMiss(s, p);
  }

  /** The last word of `w w w` is copied. */
  lemma LastWordCopied(s: string, n: nat)
    requires |s| == 3 * n + 2 && Word(s[..n])
    requires s[2 * n + 2..] == s[..n]
    ensures DedupFrom(s, 2 * n + 2) == s[..n]
  {
    var p := 2 * n + 1;
    forall k | p + 1 <= k < |s| ensures !IsSpace(s[k]) {
      assert s[k] == s[p + 1..][k - p - 1] == s[..n][k - p - 1];
      WordCharNotSpace(s[k]);
    }
    DedupNoSpace(s, p + 1);
  }


}
