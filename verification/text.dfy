/**
 * Character classes and string helpers that `Currency::from_string`
 * (src/lib.rs) relies on from Rust's standard library and the regex crate:
 * `str::trim`, the classes `\d`, `[\.,]` and `\p{Sc}`, `str::replace` of the
 * separators, and reading a string of decimal digits.
 */
module Text {

  /** An ASCII decimal digit, the only kind `str::parse::<i64>` accepts. */
  predicate IsDigit(c: char)
  {
    '0' <= c <= '9'
  }

  /** `[\.,]`: the grouping and fraction separators. */
  predicate IsSeparator(c: char)
  {
    c == '.' || c == ','
  }

  /** `\p{Sc}`: the Unicode general category Currency_Symbol (Unicode 15.0). */
  predicate IsCurrencySymbol(c: char)
  {
    || c == '$'
    || ('\U{A2}' <= c <= '\U{A5}')
    || c == '\U{58F}' || c == '\U{60B}'
    || ('\U{7FE}' <= c <= '\U{7FF}')
    || ('\U{9F2}' <= c <= '\U{9F3}') || c == '\U{9FB}'
    || c == '\U{AF1}' || c == '\U{BF9}' || c == '\U{E3F}' || c == '\U{17DB}'
    || ('\U{20A0}' <= c <= '\U{20C0}')
    || c == '\U{A838}' || c == '\U{FDFC}' || c == '\U{FE69}' || c == '\U{FF04}'
    || ('\U{FFE0}' <= c <= '\U{FFE1}') || ('\U{FFE5}' <= c <= '\U{FFE6}')
    || ('\U{11FDD}' <= c <= '\U{11FE0}')
    || c == '\U{1E2FF}' || c == '\U{1ECB0}'
  }

  /** `char::is_whitespace`: the Unicode White_Space property, which `str::trim` strips. */
  predicate IsWhitespace(c: char)
  {
    Listed(c, WhitespaceTable)
  }

  /** The characters with the Unicode White_Space property. */
  const WhitespaceTable: seq<char> := [
    '\t', '\n', '\U{B}', '\U{C}', '\r', ' ', '\U{85}', '\U{A0}', '\U{1680}',
    '\U{2000}', '\U{2001}', '\U{2002}', '\U{2003}', '\U{2004}', '\U{2005}',
    '\U{2006}', '\U{2007}', '\U{2008}', '\U{2009}', '\U{200A}',
    '\U{2028}', '\U{2029}', '\U{202F}', '\U{205F}', '\U{3000}']

  /**
   * `c` occurs in `table`; written as a recursion over the table so that the
   * verifier looks at its entries one at a time, when a proof needs them.
   */
  predicate Listed(c: char, table: seq<char>)
  {
    table != [] && (table[0] == c || Listed(c, table[1..]))
  }

  /** `Listed` is membership. */
  lemma {:induction false} ListedIsMembership(c: char, table: seq<char>)
    ensures Listed(c, table) <==> c in table
  {
    if table != [] {
      ListedIsMembership(c, table[1..]);
      assert table == [table[0]] + table[1..];
    }
  }

  /** The code point bands that hold all whitespace: controls and space, three singles, the general punctuation spaces, the ideographic space. */
  predicate InWhitespaceBands(c: char)
  {
    c <= ' ' || c == '\U{85}' || c == '\U{A0}' || c == '\U{1680}' || ('\U{2000}' <= c <= '\U{205F}') || c == '\U{3000}'
  }

  /** Each entry of the whitespace table lies in one of the bands. */
  lemma TableInBands(k: int)
    requires 0 <= k < |WhitespaceTable|
    ensures InWhitespaceBands(WhitespaceTable[k])
  {
  }

  /** A character listed in the table from index `k` on lies in one of the bands. */
  lemma {:induction false} ListedSuffixInBands(c: char, k: int)
    requires 0 <= k <= |WhitespaceTable| && Listed(c, WhitespaceTable[k..])
    ensures InWhitespaceBands(c)
    decreases |WhitespaceTable| - k
  {
    var t := WhitespaceTable[k..];
    if t[0] == c {
      TableInBands(k);
    } else {
      assert t[1..] == WhitespaceTable[k + 1..];
      ListedSuffixInBands(c, k + 1);
    }
  }

  /** Every whitespace character lies in one of the bands. */
  lemma WhitespaceBands(c: char)
    requires IsWhitespace(c)
    ensures InWhitespaceBands(c)
  {
    assert WhitespaceTable[0..] == WhitespaceTable;
    ListedSuffixInBands(c, 0);
  }

  /** The characters a parsed amount starts or ends with, `-`, digits and currency symbols, are not whitespace. */
  lemma NotWhitespace(c: char)
    requires IsDigit(c) || c == '-' || IsCurrencySymbol(c)
    ensures !IsWhitespace(c)
  {
    if IsWhitespace(c) {
      WhitespaceBands(c);
    }
  }

  /** None of the characters the grammar gives a role to is a currency symbol. */
  lemma SymbolsAreNotPunctuationOrDigits(c: char)
    ensures IsCurrencySymbol(c) ==> !IsDigit(c) && !IsSeparator(c) && c != '-'
  {
  }

  predicate AllDigits(s: string)
  {
    forall i | 0 <= i < |s| :: IsDigit(s[i])
  }

  /** The character of `s` at index `j` is whitespace. */
  predicate WhitespaceAt(s: string, j: int)
    requires 0 <= j < |s|
  {
    IsWhitespace(s[j])
  }

  /** Every character of `s` from index `lo` up to (not including) `hi` is whitespace. */
  predicate WhitespaceBetween(s: string, lo: int, hi: int)
    requires 0 <= lo <= hi <= |s|
  {
    forall j | lo <= j < hi :: WhitespaceAt(s, j)
  }

  /** The first index at or after `k` that does not hold whitespace (`|s|` when there is none). */
  function SkipWhitespace(s: string, k: int): (r: int)
    requires 0 <= k <= |s|
    ensures k <= r <= |s| && WhitespaceBetween(s, k, r)
    ensures r == |s| || !IsWhitespace(s[r])
    decreases |s| - k
  {
    if k == |s| || !IsWhitespace(s[k]) then k
    else
      assert WhitespaceAt(s, k);
      SkipWhitespace(s, k + 1)
  }

  /** Where `s[lo..hi]` ends once the whitespace at its end is dropped. */
  function SkipWhitespaceBack(s: string, lo: int, hi: int): (r: int)
    requires 0 <= lo <= hi <= |s|
    ensures lo <= r <= hi && WhitespaceBetween(s, r, hi)
    ensures r == lo || !IsWhitespace(s[r - 1])
    decreases hi - lo
  {
    if hi == lo || !IsWhitespace(s[hi - 1]) then hi
    else
      assert WhitespaceAt(s, hi - 1);
      SkipWhitespaceBack(s, lo, hi - 1)
  }

  /**
   * `str::trim`: the middle part of `s` that neither starts nor ends with
   * whitespace, everything cut away on either side being whitespace.
   */
  function Trim(s: string): (t: string)
    ensures t == [] || (!IsWhitespace(t[0]) && !IsWhitespace(t[|t| - 1]))
    ensures exists i | 0 <= i <= |s| - |t| ::
      t == s[i..i + |t|] && WhitespaceBetween(s, 0, i) && WhitespaceBetween(s, i + |t|, |s|)
  {
    var i := SkipWhitespace(s, 0);
    var j := SkipWhitespaceBack(s, i, |s|);
    assert s[i..j] == s[i..i + (j - i)];
    s[i..j]
  }

  /** Text that starts and ends with something other than whitespace is left as it is. */
  lemma TrimKeepsTrimmed(s: string)
    requires s == [] || (!IsWhitespace(s[0]) && !IsWhitespace(s[|s| - 1]))
    ensures Trim(s) == s
  {
  }

  /** The value of one ASCII digit (nothing else occurs where it is used). */
  function DigitValue(c: char): (d: nat)
    ensures d <= 9
    ensures IsDigit(c) ==> d == c as int - '0' as int
  {
    if IsDigit(c) then c as int - '0' as int else 0
  }

  /** The number a string of decimal digits spells, most significant digit first. */
  function DecimalValue(s: string): nat
  {
    if s == [] then 0 else 10 * DecimalValue(s[..|s| - 1]) + DigitValue(s[|s| - 1])
  }

  /** Reading one more digit multiplies by ten and adds it. */
  lemma DecimalValueAppend(s: string, c: char)
    ensures DecimalValue(s + [c]) == 10 * DecimalValue(s) + DigitValue(c)
  {
    assert (s + [c])[..|s|] == s;
  }

  /** Appending `"00"` counts the same number in hundredths: `value(s + "00") == 100 * value(s)`. */
  lemma DecimalValueHundredfold(s: string)
    ensures DecimalValue(s + "00") == 100 * DecimalValue(s)
  {
    assert s + "00" == (s + ['0']) + ['0'];
    DecimalValueAppend(s, '0');
    DecimalValueAppend(s + ['0'], '0');
  }

  /** A prefix of a digit string never reads as more than the whole. */
  lemma {:induction false} DecimalValuePrefix(s: string, i: nat)
    requires i <= |s|
    ensures DecimalValue(s[..i]) <= DecimalValue(s)
  {
    if i < |s| {
      DecimalValuePrefix(s[..|s| - 1], i);
      assert s[..|s| - 1][..i] == s[..i];
    } else {
      assert s[..i] == s;
    }
  }

  /** `replace(".", "").replace(",", "")`: drops every separator and keeps the rest in order. */
  function RemoveSeparators(s: string): (r: string)
    ensures |r| <= |s|
    ensures forall i | 0 <= i < |r| :: !IsSeparator(r[i])
    ensures (forall i | 0 <= i < |s| :: IsSeparator(s[i])) ==> r == []
    ensures (forall i | 0 <= i < |s| :: !IsSeparator(s[i])) ==> r == s
  {
    if s == [] then []
    else if IsSeparator(s[0]) then RemoveSeparators(s[1..])
    else [s[0]] + RemoveSeparators(s[1..])
  }

  lemma {:induction false} RemoveSeparatorsConcat(a: string, b: string)
    ensures RemoveSeparators(a + b) == RemoveSeparators(a) + RemoveSeparators(b)
  {
    if a == [] {
      assert a + b == b;
    } else {
      assert (a + b)[1..] == a[1..] + b;
      RemoveSeparatorsConcat(a[1..], b);
    }
  }

  /** The ASCII digits of `s`, in order. */
  function DigitsOf(s: string): (r: string)
    ensures AllDigits(r) && |r| <= |s|
  {
    if s == [] then []
    else if IsDigit(s[0]) then [s[0]] + DigitsOf(s[1..])
    else DigitsOf(s[1..])
  }

  lemma {:induction false} DigitsOfConcat(a: string, b: string)
    ensures DigitsOf(a + b) == DigitsOf(a) + DigitsOf(b)
  {
    if a == [] {
      assert a + b == b;
    } else {
      assert (a + b)[1..] == a[1..] + b;
      DigitsOfConcat(a[1..], b);
    }
  }

  /** For text made of digits and separators only, removing the separators leaves its digits. */
  lemma {:induction false} RemoveSeparatorsLeavesDigits(s: string)
    requires forall i | 0 <= i < |s| :: IsDigit(s[i]) || IsSeparator(s[i])
    ensures RemoveSeparators(s) == DigitsOf(s)
  {
    if s != [] {
      RemoveSeparatorsLeavesDigits(s[1..]);
    }
  }

  lemma {:induction false} DigitsOfAllDigits(s: string)
    requires AllDigits(s)
    ensures DigitsOf(s) == s
  {
    if s != [] {
      DigitsOfAllDigits(s[1..]);
    }
  }
}
