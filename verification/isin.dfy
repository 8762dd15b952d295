/** The ISIN normaliser: `normalize_isin` of the reconciliation app.

    A present cell is turned into text, every non-word character is deleted
    (the regular expression `\W+`), surrounding white space is stripped and
    the rest is upper-cased. Word characters are those of Python's `\w`
    restricted to ASCII: letters, digits and the underscore.
 */
module Isin {
  import opened Wrappers
  import opened Chars

  /** A character that `\w` matches. */
  predicate IsWordChar(c: char) {
    IsLower(c) || IsUpper(c) || IsDigit(c) || c == '_'
  }

  /** A character that can occur in a normalised ISIN. */
  predicate IsCanonicalChar(c: char) {
    IsUpper(c) || IsDigit(c) || c == '_'
  }

  /** The ASCII characters `str.strip()` removes with no argument: space,
      tab, line feed, vertical tab, form feed, carriage return and the
      separators 0x1C-0x1F. */
  predicate IsSpace(c: char) {
    c == ' ' || c == '\t' || c == '\n' || c == '\r' || c == 11 as char || c == 12 as char
    || (28 as char <= c <= 31 as char)
  }

  predicate AllCanonical(s: string) {
    forall i :: 0 <= i < |s| ==> IsCanonicalChar(s[i])
  }

  function UpperChar(c: char): char {
    if IsLower(c) then (c as int - 32) as char else c
  }

  /** `str.upper()` */
  function Upper(s: string): (r: string)
    ensures |r| == |s|
  {
    seq(|s|, i requires 0 <= i < |s| => UpperChar(s[i]))
  }

  /** `re.sub(r"\W+", "", s)`: the word characters of `s`, in order. */
  function WordChars(s: string): (r: string)
    ensures |r| <= |s|
    ensures forall i :: 0 <= i < |r| ==> IsWordChar(r[i])
  {
    if s == [] then []
    else (if IsWordChar(s[0]) then [s[0]] else []) + WordChars(s[1..])
  }

  function StripLeft(s: string): (r: string)
    ensures |r| <= |s|
  {
    if s != [] && IsSpace(s[0]) then StripLeft(s[1..]) else s
  }

  function StripRight(s: string): (r: string)
    ensures |r| <= |s|
  {
    if s != [] && IsSpace(s[|s| - 1]) then StripRight(s[..|s| - 1]) else s
  }

  /** `str.strip()` */
  function Strip(s: string): (r: string)
    ensures |r| <= |s|
  {
    StripRight(StripLeft(s))
  }

  /** `normalize_isin(cell)`: "" for a missing cell, otherwise only upper-case
      letters, digits and underscores, never longer than the cell's text. */
  function NormalizeIsin(cell: Option<string>): (r: string)
    ensures cell.None? ==> r == ""
    ensures cell.Some? ==> |r| <= |cell.value|
    ensures AllCanonical(r)
  {
    match cell
    case None => ""
    case Some(s) =>
      var w := WordChars(s);
      StripIsIdentityOnWords(w);
      UpperCanonical(w);
      Upper(Strip(w))
  }

  // ----- lemmas -----

  /** Stripping cannot remove anything once the non-word characters are gone:
      white space is not a word character. */
  lemma StripIsIdentityOnWords(s: string)
    requires forall i :: 0 <= i < |s| ==> IsWordChar(s[i])
    ensures Strip(s) == s
  {
    assert StripLeft(s) == s;
  }

  lemma UpperCanonical(s: string)
    requires forall i :: 0 <= i < |s| ==> IsWordChar(s[i])
    ensures AllCanonical(Upper(s))
  {
  }

  /** A string that already has only word characters is left as it is. */
  lemma {:induction false} WordCharsKeepsWords(s: string)
    requires forall i :: 0 <= i < |s| ==> IsWordChar(s[i])
    ensures WordChars(s) == s
  {
    if s != [] {
      WordCharsKeepsWords(s[1..]);
      assert s == [s[0]] + s[1..];
    }
  }

  lemma {:induction false} WordCharsAppend(a: string, b: string)
    ensures WordChars(a + b) == WordChars(a) + WordChars(b)
  {
    if a == [] {
      assert a + b == b;
    } else {
      var h := if IsWordChar(a[0]) then [a[0]] else [];
      assert (a + b)[0] == a[0];
      assert (a + b)[1..] == a[1..] + b;
      calc {
        WordChars(a + b);
        h + WordChars(a[1..] + b);
        { WordCharsAppend(a[1..], b); }
        h + (WordChars(a[1..]) + WordChars(b));
        { assert h + (WordChars(a[1..]) + WordChars(b)) == (h + WordChars(a[1..])) + WordChars(b); }
        WordChars(a) + WordChars(b);
      }
    }
  }

  lemma {:induction false} WordCharsOfUpper(s: string)
    ensures WordChars(Upper(s)) == Upper(WordChars(s))
  {
    if s != [] {
      WordCharsOfUpper(s[1..]);
      assert Upper(s)[1..] == Upper(s[1..]);
      var head := if IsWordChar(s[0]) then [s[0]] else [];
      assert Upper(head + WordChars(s[1..])) == Upper(head) + Upper(WordChars(s[1..]));
      assert IsWordChar(UpperChar(s[0])) == IsWordChar(s[0]);
    }
  }

  /** Normalising a normalised ISIN changes nothing. */
  lemma NormalizeIsinIdempotent(cell: Option<string>)
    ensures NormalizeIsin(Some(NormalizeIsin(cell))) == NormalizeIsin(cell)
  {
    var r := NormalizeIsin(cell);
    WordCharsKeepsWords(r);
    StripIsIdentityOnWords(r);
    assert Upper(r) == r;
  }

  /** Punctuation and white space anywhere in the cell are insignificant. */
  lemma NormalizeIsinIgnoresNonWord(a: string, c: char, b: string)
    requires !IsWordChar(c)
    ensures NormalizeIsin(Some(a + [c] + b)) == NormalizeIsin(Some(a + b))
  {
    WordCharsAppend(a + [c], b);
    WordCharsAppend(a, [c]);
    WordCharsAppend(a, b);
    assert WordChars([c]) == [];
    assert WordChars(a) + [] == WordChars(a);
  }

  /** Letter case in the cell is insignificant. */
  lemma NormalizeIsinIgnoresCase(s: string)
    ensures NormalizeIsin(Some(Upper(s))) == NormalizeIsin(Some(s))
  {
    WordCharsOfUpper(s);
    var w := WordChars(s);
    UpperTwice(w);
    StripIsIdentityOnWords(w);
    StripIsIdentityOnWords(WordChars(Upper(s)));
  }

  /** Worked case: a lower-case ISIN typed with a space and a hyphen. */
  lemma NormalizeIsinExample()
    ensures NormalizeIsin(Some(" gh-0001 ")) == "GH0001"
  {
    NormalizeIsinIsUpperWords(" gh-0001 ");
    WordsExample();
    UpperExample();
  }

  lemma WordsExample()
    ensures WordChars(" gh-0001 ") == "gh0001"
  {
    assert WordChars(" gh-") == "gh";
    assert WordChars("0001 ") == "0001";
    WordCharsAppend(" gh-", "0001 ");
    assert " gh-" + "0001 " == " gh-0001 ";
    assert "gh" + "0001" == "gh0001";
  }

  lemma UpperExample()
    ensures Upper("gh0001") == "GH0001"
  {
  }

  /** Stripping never removes anything: the result is the upper-cased word
      characters of the cell, in order. */
  lemma NormalizeIsinIsUpperWords(s: string)
    ensures NormalizeIsin(Some(s)) == Upper(WordChars(s))
  {
    StripIsIdentityOnWords(WordChars(s));
  }

  lemma UpperTwice(s: string)
    ensures Upper(Upper(s)) == Upper(s)
  {
  }
}
