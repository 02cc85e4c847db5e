/**
 * `parse_number` of FeatureExtractor.py: reads a numeral written as `1,000`,
 * `10^9`, `-10^3`, `2*10^5`, `3.5e2`, ... and returns an integer, or fails.
 *
 * Where the program goes through Python's `float` type the model consults
 * `FloatOps`, two functions standing for `int(float(text))` and
 * `int(float(base) * 10 ** exp)`. The model fixes them only where a double
 * is exact: an integer literal of magnitude at most 2^53, and an integer
 * mantissa whose product with 10^exp stays within 2^53 (exp <= 22).
 * `None` is the exception that makes the caller skip the candidate.
 */
module NumberParsing {
  import opened Strings

  datatype FloatOps = FloatOps(
    truncLiteral: string -> Option<int>,      // int(float(text))
    truncScaled: (string, nat) -> Option<int>) // int(float(base) * 10 ** exp)

  /** 2^53: every integer of at most this magnitude is a double. */
  const DoubleExactBound: nat := 9007199254740992

  function Abs(x: int): nat { if x < 0 then -x else x }

  /** The character-level effect of the four `.replace` calls (lines 17-18). */
  function PrepareChar(c: char): string {
    if c == ' ' || c == ',' then ""
    else if c == '\U{00B7}' || c == '\U{22C5}' then "*"
    else [c]
  }

  /** Lines 17-18: drop spaces and commas, turn both middle dots into `*`. */
  function Prepare(raw: string): string {
    ReplaceAll(ReplaceAll(ReplaceAll(ReplaceAll(raw, " ", ""), ",", ""), "\U{00B7}", "*"), "\U{22C5}", "*")
  }

  /** An optionally signed run of ASCII digits, with its exact value. */
  function SignedDigits(s: string): (r: Option<int>)
    ensures r.Some? ==> s != [] && (s[0] == '-' <==> r.value < 0 || (s[0] == '-' && r.value == 0))
  {
    var t := if s != [] && (s[0] == '-' || s[0] == '+') then s[1..] else s;
    if t != [] && AllDigits(t) then
      Some(if s[0] == '-' then -(DigitsValue(t) as int) else DigitsValue(t) as int)
    else None
  }

  /** `int(float(s))`: exact for an integer literal a double holds. */
  function TruncFloat(s: string, ops: FloatOps): Option<int> {
    match SignedDigits(s)
    case Some(v) => if Abs(v) <= DoubleExactBound then Some(v) else ops.truncLiteral(s)
    case None => ops.truncLiteral(s)
  }

  /** The mantissa grammar `[-+]?[0-9]*\.?[0-9]+`, matched by the whole of `b`. */
  predicate IsMantissa(b: string) {
    var t := if b != [] && (b[0] == '-' || b[0] == '+') then b[1..] else b;
    var dot := Span(t, 0, IsDigit);
    (dot == |t| && |t| > 0)
    || (dot < |t| && t[dot] == '.' && dot + 1 < |t| && AllDigits(t[dot + 1..]))
  }

  predicate IsStar(c: char) { c == '*' || IsSpace(c) }

  predicate NotStar(c: char) { !IsStar(c) }

  /** `re.match(r'([-+]?[0-9]*\.?[0-9]+)\s*\*\s*10\^(\d+)', s)`: the mantissa
      and the exponent digits. The mantissa holds neither whitespace nor `*`,
      and a whitespace or `*` must follow it, so it is the text before the
      first of those; the match is anchored at the start only. */
  function MatchScaled(s: string): (r: Option<(string, string)>)
    ensures r.Some? ==> IsMantissa(r.value.0) && r.value.1 != [] && AllDigits(r.value.1)
  {
    var k := Span(s, 0, NotStar);
    if !IsMantissa(s[..k]) then None
    else match TimesTenPower(s, k)
      case None => None
      case Some(exp) => Some((s[..k], exp))
  }

  /** `\s*\*\s*10\^(\d+)` from index `k`: the exponent digits. */
  function TimesTenPower(s: string, k: nat): (r: Option<string>)
    requires k <= |s|
    ensures r.Some? ==> r.value != [] && AllDigits(r.value)
  {
    var j1 := Span(s, k, IsSpace);
    if !(j1 < |s| && s[j1] == '*') then None
    else
      var j2 := Span(s, j1 + 1, IsSpace);
      if !OccursAt(s, "10^", j2) then None
      else
        var j3 := Span(s, j2 + 3, IsDigit);
        if j3 == j2 + 3 then None else Some(s[j2 + 3..j3])
  }

  /** Line 26: `int(float(base) * (10 ** int(exp)))`. */
  function ScaledValue(base: string, expDigits: string, ops: FloatOps): Option<int>
    requires AllDigits(expDigits)
  {
    var e := DigitsValue(expDigits);
    match SignedDigits(base)
    case Some(v) =>
      if e <= 22 && Abs(v) * Pow10(e) <= DoubleExactBound then Some(v * Pow10(e))
      else ops.truncScaled(base, e)
    case None => ops.truncScaled(base, e)
  }

  /** `re.match(r'([-+]?)10\^(\d+)', s)` and its value `±10 ** exp` (lines 28-32). */
  function MatchPower(s: string): (r: Option<int>)
  {
    var i0 := if s != [] && (s[0] == '-' || s[0] == '+') then 1 else 0;
    if !OccursAt(s, "10^", i0) then None
    else
      var j := Span(s, i0 + 3, IsDigit);
      if j == i0 + 3 then None
      else
        var val := Pow10(DigitsValue(s[i0 + 3..j]));
        Some(if i0 == 1 && s[0] == '-' then -(val as int) else val as int)
  }

  /** `parse_number`: `None` stands for the exception the caller catches. */
  function ParseNumber(raw: string, ops: FloatOps): Option<int> {
    ParsePrepared(Prepare(raw), ops)
  }

  /** `parse_number` as a value, as the range scanner takes it. */
  function NumberParser(ops: FloatOps): (parse: string -> Option<int>)
    ensures forall raw :: parse(raw) == ParseNumber(raw, ops)
  {
    raw => ParseNumber(raw, ops)
  }

  /** Lines 20-34: the forms tried in order on the prepared text. */
  function ParsePrepared(s: string, ops: FloatOps): Option<int> {
    if 'e' in s || 'E' in s then TruncFloat(s, ops)
    else match MatchScaled(s)
      case Some((base, exp)) => ScaledValue(base, exp, ops)
      case None =>
        match MatchPower(s)
        case Some(v) => Some(v)
        case None => TruncFloat(s, ops)
  }

  // ---------------------------------------------------------------------
  // Properties

  /** The chain of `.replace` calls acts character by character. */
  lemma PrepareIsCharMap(raw: string)
    ensures Prepare(raw) == MapChars(raw, PrepareChar)
  {
    var s1 := ReplaceAll(raw, " ", "");
    var s2 := ReplaceAll(s1, ",", "");
    var s3 := ReplaceAll(s2, "\U{00B7}", "*");
    ReplaceCharIsMap(raw, ' ', "", 0);
    ReplaceCharIsMap(s1, ',', "", 0);
    ReplaceCharIsMap(s2, '\U{00B7}', "*", 0);
    ReplaceCharIsMap(s3, '\U{22C5}', "*", 0);
    assert raw[0..] == raw && s1[0..] == s1 && s2[0..] == s2 && s3[0..] == s3;
    ComposeFourMaps(raw);
  }

  lemma {:induction false} ComposeFourMaps(s: string)
    ensures MapChars(MapChars(MapChars(MapChars(s, Swap(' ', "")), Swap(',', "")), Swap('\U{00B7}', "*")), Swap('\U{22C5}', "*"))
         == MapChars(s, PrepareChar)
  {
    var f1, f2, f3, f4 := Swap(' ', ""), Swap(',', ""), Swap('\U{00B7}', "*"), Swap('\U{22C5}', "*");
    if s != [] {
      var c := s[0];
      ComposeFourMaps(s[1..]);
      var a1 := MapChars(s[1..], f1);
      var a2 := MapChars(a1, f2);
      var a3 := MapChars(a2, f3);
      assert MapChars(s, f1) == f1(c) + a1;
      MapCharsAppend(f1(c), a1, f2);
      MapCharsAppend(MapChars(f1(c), f2), a2, f3);
      MapCharsAppend(MapChars(MapChars(f1(c), f2), f3), a3, f4);
      assert MapChars(MapChars(MapChars(f1(c), f2), f3), f4) == PrepareChar(c) by {
        if c == ' ' || c == ',' {
        } else if c == '\U{00B7}' || c == '\U{22C5}' {
          assert MapChars("*", f4) == f4('*') + MapChars([], f4);
          assert MapChars("*", f3) == f3('*') + MapChars([], f3);
          assert MapChars("", f4) == "";
        } else {
          assert MapChars([c], f2) == f2(c) + MapChars([], f2);
          assert MapChars([c], f3) == f3(c) + MapChars([], f3);
          assert MapChars([c], f4) == f4(c) + MapChars([], f4);
        }
      }
    }
  }

  /** Spaces and commas are removed before any form is recognised: a numeral
      reads the same with or without them. */
  lemma SeparatorsIgnored(a: string, b: string, sep: char, ops: FloatOps)
    requires sep == ' ' || sep == ','
    ensures ParseNumber(a + [sep] + b, ops) == ParseNumber(a + b, ops)
  {
    PrepareDropsSeparator(a, b, sep);
  }

  lemma PrepareDropsSeparator(a: string, b: string, sep: char)
    requires sep == ' ' || sep == ','
    ensures Prepare(a + [sep] + b) == Prepare(a + b)
  {
    PrepareIsCharMap(a + [sep] + b);
    PrepareIsCharMap(a + b);
    calc {
      MapChars(a + [sep] + b, PrepareChar);
      { MapCharsAppend(a + [sep], b, PrepareChar); }
      MapChars(a + [sep], PrepareChar) + MapChars(b, PrepareChar);
      { MapCharsAppend(a, [sep], PrepareChar); }
      MapChars(a, PrepareChar) + MapChars([sep], PrepareChar) + MapChars(b, PrepareChar);
      { assert MapChars([sep], PrepareChar) == [] by { assert [sep][1..] == []; } }
      MapChars(a, PrepareChar) + MapChars(b, PrepareChar);
      { MapCharsAppend(a, b, PrepareChar); }
      MapChars(a + b, PrepareChar);
    }
  }

  /** The characters of the plain numerals below: none of them is touched by
      `Prepare`, and none is an exponent marker. */
  predicate IsPlainChar(c: char) { IsDigit(c) || c == '-' || c == '+' || c == '^' || c == '*' }

  predicate IsPlain(s: string) { forall k :: 0 <= k < |s| ==> IsPlainChar(s[k]) }

  /** A string of plain characters passes through `Prepare` unchanged. */
  lemma PrepareKeepsPlain(s: string)
    requires IsPlain(s)
    ensures Prepare(s) == s
  {
    PrepareIsCharMap(s);
    MapCharsPlain(s);
  }

  lemma {:induction false} MapCharsPlain(s: string)
    requires IsPlain(s)
    ensures MapChars(s, PrepareChar) == s
  {
    if s != [] { MapCharsPlain(s[1..]); }
  }

  lemma PlainHasNoExponent(s: string)
    requires IsPlain(s)
    ensures 'e' !in s && 'E' !in s
  {
  }

  /** `10^9` reads as 10^9. */
  lemma TenToTheNine(ops: FloatOps)
    ensures ParseNumber("10^9", ops) == Some(1000000000)
  {
    NineSpelled();
    PowerOfTen("", "9", ops);
    PowerValue("9", 9, 1000000000);
  }

  /** `-10^3` reads as -1000. */
  lemma MinusTenToTheThree(ops: FloatOps)
    ensures ParseNumber("-10^3", ops) == Some(-1000)
  {
    ThreeSpelled();
    PowerOfTen("-", "3", ops);
    PowerValue("3", 3, 1000);
  }

  lemma NineSpelled() ensures "" + "10^" + "9" == "10^9" {}

  lemma ThreeSpelled() ensures "-" + "10^" + "3" == "-10^3" {}

  /** A one-digit exponent and the power it gives. */
  lemma PowerValue(d: string, e: nat, p: nat)
    requires |d| == 1 && '0' <= d[0] <= '9' && e == d[0] as int - '0' as int && p == Pow10(e)
    ensures AllDigits(d) && DigitsValue(d) == e && Pow10(DigitsValue(d)) == p
  {
    assert d[..0] == "";
  }

  /** A thousands separator is dropped: `1,000` reads as 1000. */
  lemma ThousandsSeparator(ops: FloatOps)
    ensures ParseNumber("1,000", ops) == Some(1000)
  {
    CommaDropped(ops);
    LiteralThousand(ops);
  }

  lemma CommaDropped(ops: FloatOps)
    ensures ParseNumber("1,000", ops) == ParseNumber("1000", ops)
  {
    assert "1,000" == "1" + [','] + "000";
    assert "1" + "000" == "1000";
    SeparatorsIgnored("1", "000", ',', ops);
  }

  lemma LiteralThousand(ops: FloatOps)
    ensures ParseNumber("1000", ops) == Some(1000)
  {
    assert "" + "1000" == "1000";
    ThousandValue();
    IntegerLiteral("", "1000", ops);
  }

  lemma ThousandValue()
    ensures AllDigits("1000") && DigitsValue("1000") == 1000
  {
    assert "1000"[..3] == "100" && "100"[..2] == "10" && "10"[..1] == "1" && "1"[..0] == "";
  }

  /** Plain text is parsed as it stands, and never as a float literal. */
  lemma PlainParse(s: string, ops: FloatOps)
    requires IsPlain(s)
    ensures ParseNumber(s, ops) == ParsePrepared(s, ops) && 'e' !in s && 'E' !in s
  {
    PrepareKeepsPlain(s);
    PlainHasNoExponent(s);
  }

  /** Without whitespace or `*` the `mantissa * 10^exp` form cannot match. */
  lemma {:induction false} ScaledNeedsStar(s: string)
    requires Starless(s)
    ensures MatchScaled(s).None?
  {
    var k := Span(s, 0, NotStar);
    assert k == |s|;
  }

  lemma PowerMatch(sign: string, d: string)
    requires IsPlainPowerSign(sign) && d != [] && AllDigits(d)
    ensures MatchPower(sign + "10^" + d)
         == Some(if sign == "-" then -(Pow10(DigitsValue(d)) as int) else Pow10(DigitsValue(d)) as int)
  {
    var s := sign + "10^" + d;
    PowerShape(sign, d);
    PowerDigits(s, |sign| + 3, d);
    PowerFound(s, |sign|, d);
    assert (|sign| == 1 && s[0] == '-') <==> sign == "-";
  }

  /** The power form read once its pieces are in place. */
  lemma PowerFound(s: string, i0: nat, d: string)
    requires i0 == if s != [] && (s[0] == '-' || s[0] == '+') then 1 else 0
    requires OccursAt(s, "10^", i0) && d != [] && Span(s, i0 + 3, IsDigit) == |s| && s[i0 + 3..|s|] == d
    ensures MatchPower(s) == Some(if i0 == 1 && s[0] == '-' then -(Pow10(DigitsValue(d)) as int) else Pow10(DigitsValue(d)) as int)
  {
  }

  /** The sign and the `10^` of `sign + "10^" + d`. */
  lemma PowerShape(sign: string, d: string)
    requires IsPlainPowerSign(sign)
    ensures var s := sign + "10^" + d;
      (s != [] && (s[0] == '-' || s[0] == '+') <==> |sign| == 1)
      && (|sign| == 1 ==> s[0] == sign[0]) && OccursAt(s, "10^", |sign|) && s[|sign| + 3..] == d
  {
    var s := sign + "10^" + d;
    assert s[0] == if sign == "" then '1' else sign[0];
    assert s[|sign|..|sign| + 3] == "10^";
  }

  /** A run of digits to the end of `s` is read whole. */
  lemma PowerDigits(s: string, i: nat, d: string)
    requires i <= |s| && s[i..] == d && AllDigits(d)
    ensures Span(s, i, IsDigit) == |s| && s[i..|s|] == d
  {
    assert forall k :: i <= k < |s| ==> s[k] == d[k - i];
  }

  predicate IsPlainPowerSign(sign: string) { sign == "" || sign == "-" || sign == "+" }

  /** `10^k` reads as exactly 10^k, `-10^k` as -10^k and `+10^k` as 10^k. */
  lemma PowerOfTen(sign: string, d: string, ops: FloatOps)
    requires IsPlainPowerSign(sign) && d != [] && AllDigits(d)
    ensures ParseNumber(sign + "10^" + d, ops)
         == Some(if sign == "-" then -(Pow10(DigitsValue(d)) as int) else Pow10(DigitsValue(d)) as int)
  {
    var s := sign + "10^" + d;
    PowerIsPlain(sign, d);
    StarlessParse(s, ops);
    PowerMatch(sign, d);
  }

  lemma PowerIsPlain(sign: string, d: string)
    requires IsPlainPowerSign(sign) && AllDigits(d)
    ensures IsPlain(sign + "10^" + d) && Starless(sign + "10^" + d)
  {
    var s := sign + "10^" + d;
    forall k | 0 <= k < |s| ensures IsPlainChar(s[k]) && !IsStar(s[k]) {
      if k >= |sign| + 3 { assert s[k] == d[k - |sign| - 3]; }
    }
  }

  predicate Starless(s: string) { forall k :: 0 <= k < |s| ==> !IsStar(s[k]) }

  /** Plain text without `*` is read as `±10^k` or else as a literal. */
  lemma StarlessParse(s: string, ops: FloatOps)
    requires IsPlain(s) && Starless(s)
    ensures ParseNumber(s, ops) == if MatchPower(s).Some? then MatchPower(s) else TruncFloat(s, ops)
  {
    PlainParse(s, ops);
    ScaledNeedsStar(s);
  }

  /** A plain integer literal that a double holds reads as its value. */
  lemma IntegerLiteral(sign: string, d: string, ops: FloatOps)
    requires sign == "" || sign == "-"
    requires d != [] && AllDigits(d) && DigitsValue(d) <= DoubleExactBound
    ensures ParseNumber(sign + d, ops) == Some(if sign == "-" then -(DigitsValue(d) as int) else DigitsValue(d) as int)
  {
    var s := sign + d;
    LiteralIsPlain(sign, d);
    StarlessParse(s, ops);
    LiteralHasNoPower(sign, d);
    LiteralDigits(sign, d);
  }

  lemma LiteralIsPlain(sign: string, d: string)
    requires (sign == "" || sign == "-") && AllDigits(d)
    ensures IsPlain(sign + d) && Starless(sign + d)
  {
    var s := sign + d;
    forall k | 0 <= k < |s| ensures IsPlainChar(s[k]) && !IsStar(s[k]) {
      if k >= |sign| { assert s[k] == d[k - |sign|]; }
    }
  }

  lemma LiteralHasNoPower(sign: string, d: string)
    requires sign == "" || sign == "-"
    requires d != [] && AllDigits(d)
    ensures MatchPower(sign + d).None?
  {
    var s := sign + d;
    var i0 := |sign|;
    assert s[0] == if sign == "" then d[0] else '-';
    if |d| >= 3 {
      assert s[i0..i0 + 3][2] == d[2];
    }
  }

  lemma LiteralDigits(sign: string, d: string)
    requires sign == "" || sign == "-"
    requires d != [] && AllDigits(d)
    ensures SignedDigits(sign + d) == Some(if sign == "-" then -(DigitsValue(d) as int) else DigitsValue(d) as int)
  {
    var s := sign + d;
    if sign == "" {
      assert s == d;
      assert s[0] != '-' && s[0] != '+';
    } else {
      assert s[0] == '-' && s[1..] == d;
    }
  }

  lemma ScaledMatch(m: string, e: string)
    requires m != [] && AllDigits(m) && e != [] && AllDigits(e)
    ensures MatchScaled(m + "*10^" + e) == Some((m, e))
  {
    var s := m + "*10^" + e;
    assert forall i :: 0 <= i < |m| ==> s[i] == m[i] && NotStar(s[i]);
    assert s[|m|] == '*';
    assert Span(s, 0, NotStar) == |m|;
    assert s[..|m|] == m;
    assert Span(m, 0, IsDigit) == |m|;
    assert IsMantissa(m);
    TimesTenPowerAfter(m, e);
  }

  lemma TimesTenPowerAfter(m: string, e: string)
    requires e != [] && AllDigits(e)
    ensures TimesTenPower(m + "*10^" + e, |m|) == Some(e)
  {
    var s := m + "*10^" + e;
    TimesShape(m, e);
    PowerDigits(s, |m| + 4, e);
    TimesFound(s, |m|, e);
  }

  /** The pieces of `m + "*10^" + e` after the mantissa. */
  lemma TimesShape(m: string, e: string)
    ensures var s := m + "*10^" + e;
      s[|m|] == '*' && s[|m| + 1] == '1' && OccursAt(s, "10^", |m| + 1) && s[|m| + 4..] == e
  {
    var s := m + "*10^" + e;
    assert s[|m| + 1..|m| + 4] == "10^";
  }

  /** `*10^` followed by digits to the end is read as the exponent. */
  lemma TimesFound(s: string, k: nat, e: string)
    requires k + 1 < |s| && s[k] == '*' && s[k + 1] == '1' && OccursAt(s, "10^", k + 1)
    requires e != [] && Span(s, k + 4, IsDigit) == |s| && s[k + 4..|s|] == e
    ensures TimesTenPower(s, k) == Some(e)
  {
    assert Span(s, k, IsSpace) == k;
    assert Span(s, k + 1, IsSpace) == k + 1;
  }

  /** `m*10^e` with an integer mantissa reads as m * 10^e while the product
      is exact in a double. */
  lemma ScaledInteger(m: string, e: string, ops: FloatOps)
    requires m != [] && AllDigits(m) && e != [] && AllDigits(e)
    requires DigitsValue(e) <= 22 && DigitsValue(m) * Pow10(DigitsValue(e)) <= DoubleExactBound
    ensures ParseNumber(m + "*10^" + e, ops) == Some((DigitsValue(m) * Pow10(DigitsValue(e))) as int)
  {
    var s := m + "*10^" + e;
    assert IsPlain(s) by {
      forall k | 0 <= k < |s| ensures IsPlainChar(s[k]) {
        if k < |m| { assert s[k] == m[k]; }
        else if k >= |m| + 4 { assert s[k] == e[k - |m| - 4]; }
      }
    }
    PlainParse(s, ops);
    ScaledMatch(m, e);
    ScaledExact(m, e, ops);
  }

  /** An integer mantissa scaled within the exact range of a double. */
  lemma ScaledExact(m: string, e: string, ops: FloatOps)
    requires m != [] && AllDigits(m) && AllDigits(e)
    requires DigitsValue(e) <= 22 && DigitsValue(m) * Pow10(DigitsValue(e)) <= DoubleExactBound
    ensures ScaledValue(m, e, ops) == Some((DigitsValue(m) * Pow10(DigitsValue(e))) as int)
  {
    assert SignedDigits(m) == Some(DigitsValue(m) as int);
  }
}
