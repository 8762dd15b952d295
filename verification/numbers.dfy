/** The amount normaliser `clean_number` and two-place rounding.

    `clean_number` deletes every character other than a digit, `.` or `-`
    and hands the rest to `pd.to_numeric(..., errors="coerce")`, which
    yields NA instead of raising when the text is not a number. After the
    deletion the only texts that parse are plain decimals: an optional
    leading minus sign, then digits with at most one decimal point and at
    least one digit. Amounts are exact decimals (`real`).
 */
module Numbers {
  import opened Wrappers
  import opened Chars

  predicate IsNumericChar(c: char) {
    IsDigit(c) || c == '.' || c == '-'
  }

  predicate AllDigits(s: string) {
    forall i :: 0 <= i < |s| ==> IsDigit(s[i])
  }

  /** `re.sub(r"[^\d.\-]", "", s)`: the digits, points and minus signs of `s`, in order. */
  function NumericChars(s: string): (r: string)
    ensures |r| <= |s|
    ensures forall i :: 0 <= i < |r| ==> IsNumericChar(r[i])
  {
    if s == [] then []
    else (if IsNumericChar(s[0]) then [s[0]] else []) + NumericChars(s[1..])
  }

  function DigitValue(c: char): nat
    requires IsDigit(c)
  {
    c as int - '0' as int
  }

  /** The natural number a run of decimal digits denotes. */
  function DigitsValue(d: string): nat
    requires AllDigits(d)
  {
    if d == [] then 0 else DigitsValue(d[..|d| - 1]) * 10 + DigitValue(d[|d| - 1])
  }

  function Pow10(n: nat): (p: nat)
    ensures p >= 1
  {
    if n == 0 then 1 else 10 * Pow10(n - 1)
  }

  /** The length of the run of digits at the front of `s`. */
  function DigitRun(s: string): (k: nat)
    ensures k <= |s|
    ensures forall i :: 0 <= i < k ==> IsDigit(s[i])
    ensures k < |s| ==> !IsDigit(s[k])
  {
    if s != [] && IsDigit(s[0]) then 1 + DigitRun(s[1..]) else 0
  }

  /** `w.f` read as a decimal: whole part `w`, fraction digits `f`. */
  function DecimalValue(w: string, f: string): real
    requires AllDigits(w) && AllDigits(f)
  {
    DigitsValue(w) as real + DigitsValue(f) as real / Pow10(|f|) as real
  }

  /** An unsigned decimal: digits, or digits `.` digits, or `.` digits. */
  function ParseUnsigned(s: string): Option<real>
  {
    var k := DigitRun(s);
    if k == |s| then
      if k > 0 then Some(DigitsValue(s) as real) else None
    else if s[k] == '.' && AllDigits(s[k + 1..]) && (k > 0 || k + 1 < |s|) then
      Some(DecimalValue(s[..k], s[k + 1..]))
    else None
  }

  /** What the stripped text must look like for `pd.to_numeric` to read it:
      only digits, points and minus signs; a minus sign only in front; at
      most one point; at least one digit. */
  ghost predicate WellFormedDecimal(s: string) {
    && (forall i :: 0 <= i < |s| ==> IsNumericChar(s[i]))
    && (forall i :: 0 < i < |s| ==> s[i] != '-')
    && (forall i, j :: 0 <= i < j < |s| && s[i] == '.' ==> s[j] != '.')
    && (exists i :: 0 <= i < |s| && IsDigit(s[i]))
  }

  /** `pd.to_numeric(s, errors="coerce")` on a text of digits, points and
      minus signs: a number exactly when the text is a well-formed decimal. */
  function ParseDecimal(s: string): (r: Option<real>)
    ensures r.Some? <==> WellFormedDecimal(s)
  {
    ParseDecimalAcceptsExactly(s);
    if |s| > 0 && s[0] == '-' then
      match ParseUnsigned(s[1..])
      case Some(v) => Some(-v)
      case None => None
    else ParseUnsigned(s)
  }

  /** `clean_number(cell)`: absent for a missing cell; otherwise the number the
      cell's digits, points and minus signs spell, or absent when they do not
      spell one. */
  function CleanNumber(cell: Option<string>): (r: Option<real>)
    ensures cell.None? ==> r.None?
    ensures cell.Some? ==> (r.Some? <==> WellFormedDecimal(NumericChars(cell.value)))
  {
    match cell
    case None => None
    case Some(s) => ParseDecimal(NumericChars(s))
  }

  // ----- the parser accepts exactly the well-formed decimals -----

  /** The unsigned reader accepts a text exactly when it has only digits and
      at most one point, and at least one digit. */
  ghost predicate UnsignedForm(s: string) {
    && (forall i :: 0 <= i < |s| ==> IsDigit(s[i]) || s[i] == '.')
    && (forall i, j :: 0 <= i < j < |s| && s[i] == '.' ==> s[j] != '.')
    && (exists i :: 0 <= i < |s| && IsDigit(s[i]))
  }

  lemma ParseUnsignedAcceptsExactly(s: string)
    ensures ParseUnsigned(s).Some? <==> UnsignedForm(s)
  {
    var k := DigitRun(s);
    if ParseUnsigned(s).Some? {
      if k < |s| {
        if k > 0 {
          assert IsDigit(s[0]);
        } else {
          assert IsDigit(s[k + 1]);
        }
        forall i | 0 <= i < |s|
          ensures IsDigit(s[i]) || s[i] == '.'
        {
          if i > k {
            assert s[k + 1..][i - k - 1] == s[i];
          }
        }
        forall i, j | 0 <= i < j < |s| && s[i] == '.'
          ensures s[j] != '.'
        {
          assert i == k;
          assert s[k + 1..][j - k - 1] == s[j];
        }
      } else {
        assert IsDigit(s[0]);
      }
    } else {
      if UnsignedForm(s) {
        ParseUnsignedAccepts(s);
      }
    }
  }

  lemma ParseUnsignedAccepts(s: string)
    requires forall i :: 0 <= i < |s| ==> IsDigit(s[i]) || s[i] == '.'
    requires forall i, j :: 0 <= i < j < |s| && s[i] == '.' ==> s[j] != '.'
    requires exists i :: 0 <= i < |s| && IsDigit(s[i])
    ensures ParseUnsigned(s).Some?
  {
    var k := DigitRun(s);
    var d :| 0 <= d < |s| && IsDigit(s[d]);
    if k < |s| {
      assert s[k] == '.';
      var t := s[k + 1..];
      forall i | 0 <= i < |t|
        ensures IsDigit(t[i])
      {
        assert t[i] == s[k + 1 + i];
      }
      assert d != k;
    }
  }

  lemma ParseDecimalAcceptsExactly(s: string)
    ensures (if |s| > 0 && s[0] == '-' then ParseUnsigned(s[1..]) else ParseUnsigned(s)).Some?
      <==> WellFormedDecimal(s)
  {
    if |s| > 0 && s[0] == '-' {
      ParseUnsignedAcceptsExactly(s[1..]);
      if WellFormedDecimal(s) {
        SignedFormFromWellFormed(s);
      }
      if UnsignedForm(s[1..]) {
        WellFormedFromSignedForm(s);
      }
    } else {
      ParseUnsignedAcceptsExactly(s);
      UnsignedWellFormed(s);
    }
  }

  /** Without a leading minus sign, a well-formed decimal is an unsigned one. */
  lemma UnsignedWellFormed(s: string)
    requires |s| > 0 ==> s[0] != '-'
    ensures UnsignedForm(s) <==> WellFormedDecimal(s)
  {
    if WellFormedDecimal(s) {
      forall i | 0 <= i < |s|
        ensures IsDigit(s[i]) || s[i] == '.'
      {
        if i == 0 {
          assert s[0] != '-';
        }
      }
    }
  }

  lemma SignedFormFromWellFormed(s: string)
    requires |s| > 0 && s[0] == '-'
    requires WellFormedDecimal(s)
    ensures UnsignedForm(s[1..])
  {
    var t := s[1..];
    assert forall i :: 0 <= i < |t| ==> t[i] == s[i + 1];
    var d :| 0 <= d < |s| && IsDigit(s[d]);
    assert t[d - 1] == s[d];
    forall i, j | 0 <= i < j < |t| && t[i] == '.'
      ensures t[j] != '.'
    {
      assert s[i + 1] == '.';
    }
  }

  lemma WellFormedFromSignedForm(s: string)
    requires |s| > 0 && s[0] == '-'
    requires UnsignedForm(s[1..])
    ensures WellFormedDecimal(s)
  {
    var t := s[1..];
    assert forall i :: 0 <= i < |t| ==> t[i] == s[i + 1];
    var d :| 0 <= d < |t| && IsDigit(t[d]);
    assert IsDigit(s[d + 1]);
    forall i, j | 0 <= i < j < |s| && s[i] == '.'
      ensures s[j] != '.'
    {
      assert t[i - 1] == '.';
      assert t[j - 1] == s[j];
    }
    forall i | 0 < i < |s|
      ensures s[i] != '-'
    {
      assert t[i - 1] == s[i];
    }
  }

  // ----- what the parser reads -----

  /** The text of a decimal: an optional minus sign, the whole digits, and,
      when `point` holds, a point followed by the fraction digits. */
  function Literal(negative: bool, w: string, point: bool, f: string): string {
    (if negative then "-" else "") + w + (if point then "." + f else "")
  }

  lemma {:induction false} DigitRunOfDigits(w: string, rest: string)
    requires AllDigits(w)
    requires rest != [] ==> !IsDigit(rest[0])
    ensures DigitRun(w + rest) == |w|
  {
    if w != [] {
      assert (w + rest)[1..] == w[1..] + rest;
      DigitRunOfDigits(w[1..], rest);
    } else {
      assert w + rest == rest;
    }
  }

  lemma ParseUnsignedReads(w: string, point: bool, f: string)
    requires AllDigits(w) && AllDigits(f)
    requires !point ==> f == []
    requires |w| > 0 || |f| > 0
    ensures ParseUnsigned(w + (if point then "." + f else "")) == Some(DecimalValue(w, f))
  {
    var body := w + (if point then "." + f else "");
    DigitRunOfDigits(w, if point then "." + f else "");
    if point {
      assert body[..|w|] == w;
      assert body[|w| + 1..] == f;
    } else {
      assert body == w;
    }
  }

  /** Every literal with at least one digit reads back as the number it spells. */
  lemma ParseDecimalReadsLiteral(negative: bool, w: string, point: bool, f: string)
    requires AllDigits(w) && AllDigits(f)
    requires !point ==> f == []
    requires |w| > 0 || |f| > 0
    ensures ParseDecimal(Literal(negative, w, point, f))
      == Some(if negative then -DecimalValue(w, f) else DecimalValue(w, f))
  {
    var body := w + (if point then "." + f else "");
    ParseUnsignedReads(w, point, f);
    assert ParseUnsigned(body) == Some(DecimalValue(w, f));
    if negative {
      LiteralParts(negative, w, point, f);
      ParseDecimalSign(body);
    } else {
      LiteralParts(negative, w, point, f);
      UnsignedLiteralUnsigned(w, point, f);
    }
  }

  /** A literal is its sign followed by its unsigned text. */
  lemma LiteralParts(negative: bool, w: string, point: bool, f: string)
    ensures var body := w + (if point then "." + f else "");
            Literal(negative, w, point, f) == if negative then "-" + body else body
  {
    var sign := if negative then "-" else "";
    var tail := if point then "." + f else "";
    assert sign + w + tail == sign + (w + tail);
  }

  /** Without a sign, the decimal reader is the unsigned reader. */
  lemma UnsignedLiteralUnsigned(w: string, point: bool, f: string)
    requires AllDigits(w)
    requires |w| > 0 || point
    ensures var body := w + (if point then "." + f else "");
            ParseDecimal(body) == ParseUnsigned(body)
  {
    var body := w + (if point then "." + f else "");
    if |w| > 0 {
      assert body[0] == w[0];
    } else {
      assert body[0] == '.';
    }
  }

  /** A leading minus sign negates what the unsigned reader reads. */
  lemma ParseDecimalSign(body: string)
    ensures ParseDecimal("-" + body)
      == match ParseUnsigned(body) case Some(v) => Some(-v) case None => None
  {
    assert ("-" + body)[1..] == body;
  }

  /** A text that already holds only digits, points and minus signs is kept as it is. */
  lemma {:induction false} NumericCharsKeepsNumeric(s: string)
    requires forall i :: 0 <= i < |s| ==> IsNumericChar(s[i])
    ensures NumericChars(s) == s
  {
    if s != [] {
      NumericCharsKeepsNumeric(s[1..]);
      assert s == [s[0]] + s[1..];
    }
  }

  lemma {:induction false} NumericCharsAppend(a: string, b: string)
    ensures NumericChars(a + b) == NumericChars(a) + NumericChars(b)
  {
    if a == [] {
      assert a + b == b;
    } else {
      var h := if IsNumericChar(a[0]) then [a[0]] else [];
      assert (a + b)[0] == a[0];
      assert (a + b)[1..] == a[1..] + b;
      calc {
        NumericChars(a + b);
        h + NumericChars(a[1..] + b);
        { NumericCharsAppend(a[1..], b); }
        h + (NumericChars(a[1..]) + NumericChars(b));
        { assert h + (NumericChars(a[1..]) + NumericChars(b)) == (h + NumericChars(a[1..])) + NumericChars(b); }
        NumericChars(a) + NumericChars(b);
      }
    }
  }

  /** Deleting one character that is not a digit, point or minus sign
      leaves the stripped text unchanged. */
  lemma NumericCharsDrops(a: string, c: char, b: string)
    requires !IsNumericChar(c)
    ensures NumericChars(a + [c] + b) == NumericChars(a + b)
  {
    NumericCharsAppend(a + [c], b);
    NumericCharsAppend(a, [c]);
    NumericCharsAppend(a, b);
    assert NumericChars([c]) == [];
    assert NumericChars(a) + [] == NumericChars(a);
  }

  /** Thousands separators, currency codes and spaces are insignificant. */
  lemma CleanNumberIgnoresNoise(a: string, c: char, b: string)
    requires !IsNumericChar(c)
    ensures CleanNumber(Some(a + [c] + b)) == CleanNumber(Some(a + b))
  {
    NumericCharsDrops(a, c, b);
  }

  /** Worked case: an amount with a thousands separator and a currency code. */
  lemma CleanNumberReadsFormattedAmount()
    ensures CleanNumber(Some("1,234.56 GHS")) == Some(1234.56)
  {
    StrippedExample();
    ReadsExample();
  }

  lemma ReadsExample()
    ensures ParseDecimal("1234.56") == Some(1234.56)
  {
    DecimalExample();
    assert "1234.56" == Literal(false, "1234", true, "56");
    ParseDecimalReadsLiteral(false, "1234", true, "56");
  }

  lemma StrippedExample()
    ensures NumericChars("1,234.56 GHS") == "1234.56"
  {
    SeparatorExample();
    NumericCharsAppend("1,234.56", " GHS");
    assert "1,234.56" + " GHS" == "1,234.56 GHS";
    assert NumericChars(" GHS") == "";
    assert "1234.56" + "" == "1234.56";
  }

  lemma SeparatorExample()
    ensures NumericChars("1,234.56") == "1234.56"
  {
    NumericCharsDrops("1", ',', "234.56");
    assert "1" + [','] + "234.56" == "1,234.56";
    assert "1" + "234.56" == "1234.56";
    NumericCharsKeepsNumeric("1234.56");
  }

  lemma DecimalExample()
    ensures DecimalValue("1234", "56") == 1234.56
  {
    DigitsValueExamples();
    assert Pow10(2) == 100;
  }

  lemma DigitsValueExamples()
    ensures DigitsValue("1234") == 1234
    ensures DigitsValue("56") == 56
  {
    assert "1234"[..3] == "123";
    assert "123"[..2] == "12";
    assert "12"[..1] == "1";
    assert "56"[..1] == "5";
  }

  /** Worked cases: the empty text, a lone sign and a text with two points are absent. */
  lemma CleanNumberRejectsExamples()
    ensures CleanNumber(Some("")) == None
    ensures CleanNumber(Some("-")) == None
    ensures CleanNumber(Some("1.2.3")) == None
  {
    NumericCharsKeepsNumeric("-");
    TwoPointsExample();
  }

  lemma TwoPointsExample()
    ensures CleanNumber(Some("1.2.3")) == None
  {
    NumericCharsKeepsNumeric("1.2.3");
    assert "1.2.3"[1] == '.' && "1.2.3"[3] == '.';
  }

  // ----- two-place rounding -----

  /** A whole number of hundredths. */
  predicate IsCents(r: real) {
    (r * 100.0).Floor as real == r * 100.0
  }

  /** The integer nearest to `y`, a tie going to the even one. */
  function RoundHalfEven(y: real): (n: int)
    ensures y - 0.5 <= n as real <= y + 0.5
  {
    var f := y.Floor;
    if y - f as real > 0.5 || (y - f as real == 0.5 && f % 2 == 1) then f + 1 else f
  }

  /** `round(x, 2)`: the nearest multiple of 0.01, a tie going to the even
      multiple (Python rounds half to even). */
  function Round2(x: real): (r: real)
    ensures IsCents(r)
    ensures x - 0.005 <= r <= x + 0.005
  {
    var n := RoundHalfEven(x * 100.0);
    var r := n as real / 100.0;
    assert r * 100.0 == n as real;
    assert (n as real).Floor == n;
    r
  }

  /** A whole number of hundredths is its own rounding. */
  lemma Round2Fixes(x: real)
    requires IsCents(x)
    ensures Round2(x) == x
  {
  }

  lemma Round2Idempotent(x: real)
    ensures Round2(Round2(x)) == Round2(x)
  {
    Round2Fixes(Round2(x));
  }

  lemma Round2Monotone(x: real, y: real)
    requires x <= y
    ensures Round2(x) <= Round2(y)
  {
    assert (x * 100.0).Floor <= (y * 100.0).Floor;
    assert RoundHalfEven(x * 100.0) <= RoundHalfEven(y * 100.0);
  }

  /** Rounding commutes with negation, so `round(a - b, 2) == -round(b - a, 2)`. */
  lemma Round2Negate(x: real)
    ensures Round2(-x) == -Round2(x)
  {
    var y := x * 100.0;
    assert (-x) * 100.0 == -y;
    assert RoundHalfEven(-y) == -RoundHalfEven(y) by {
      RoundHalfEvenNegate(y);
    }
  }

  /** Rounded differences taken in the two orders are opposite. */
  lemma Round2Antisymmetric(a: real, b: real)
    ensures Round2(a - b) == -Round2(b - a)
  {
    assert a - b == -(b - a);
    Round2Negate(b - a);
  }

  lemma RoundHalfEvenNegate(y: real)
    ensures RoundHalfEven(-y) == -RoundHalfEven(y)
  {
    var f := y.Floor;
    var d := y - f as real;
    if d == 0.0 {
      assert (-y).Floor == -f;
    } else {
      assert (-y).Floor == -f - 1;
      assert -y - (-f - 1) as real == 1.0 - d;
      assert (-f - 1) % 2 == 1 <==> f % 2 == 0;
    }
  }

  /** A value between 0 and 100 rounds to a value between 0 and 100. */
  lemma Round2Percent(x: real)
    requires 0.0 <= x <= 100.0
    ensures 0.0 <= Round2(x) <= 100.0
  {
    Round2Monotone(0.0, x);
    Round2Monotone(x, 100.0);
    Round2Fixes(0.0);
    Round2Fixes(100.0);
  }
}
