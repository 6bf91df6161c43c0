/**
 * `Currency::from_string` (src/lib.rs): free-form text to an amount.
 *
 * The source matches the trimmed text against the regular expression
 *   (?:\b|(-)?)(\p{Sc})?((?:(?:\d{1,3}[\.,])+\d{3})|\d+)(?:[\.,](\d{2}))?\b
 * and accepts only when the first match is the whole text. Here the grammar is
 * stated as a relation (`MoneyText`), a deterministic matcher (`MatchMoney`)
 * stands in for the regex engine and is proved to find exactly the
 * decompositions the relation allows, and `FromString` performs the steps of
 * the source on the matcher's captures.
 */
module Parser {
  import opened Wrappers
  import opened Money
  import opened Text

  // ---------------------------------------------------------------------------
  // The grammar, as a relation
  // ---------------------------------------------------------------------------

  predicate ThreeDigits(s: string)
  {
    |s| == 3 && AllDigits(s)
  }

  /** `(?:\d{1,3}[\.,])+\d{3}`: groups of one to three digits, each closed by a separator, then three digits. */
  ghost predicate Grouped(b: string)
    decreases |b|
  {
    exists k :: 1 <= k <= 3 && k < |b| && AllDigits(b[..k]) && IsSeparator(b[k])
                && (ThreeDigits(b[k + 1..]) || Grouped(b[k + 1..]))
  }

  /** Capture group 3: a grouped number or a bare run of digits. */
  ghost predicate Body(b: string)
  {
    (b != [] && AllDigits(b)) || Grouped(b)
  }

  function SignText(negative: bool): string
  {
    if negative then "-" else ""
  }

  function SymbolText(symbol: Option<char>): string
  {
    match symbol
    case Some(c) => [c]
    case None => ""
  }

  /** What comes before the number: `-` when negative, then the symbol if any. */
  function Prefix(negative: bool, symbol: Option<char>): string
  {
    SignText(negative) + SymbolText(symbol)
  }

  /**
   * `rest` reads as the body, then, when `cents` is present, a `.` or `,`
   * followed by its two digits.
   */
  ghost predicate Number(rest: string, body: string, cents: Option<string>)
  {
    && Body(body)
    && match cents
       case None => rest == body
       case Some(d) => |d| == 2 && AllDigits(d) && (rest == body + "." + d || rest == body + "," + d)
  }

  /**
   * The whole of `t` reads as: `-` when `negative`, then the currency symbol
   * when there is one, then a number with the given body and cents.
   */
  ghost predicate MoneyText(t: string, negative: bool, symbol: Option<char>, body: string, cents: Option<string>)
  {
    var p := Prefix(negative, symbol);
    && (symbol.Some? ==> IsCurrencySymbol(symbol.value))
    && |p| <= |t| && t[..|p|] == p
    && Number(t[|p|..], body, cents)
  }

  /** The digit string `from_string` hands to the integer parser: the body without separators, then the cents or `"00"`. */
  function CoinDigits(body: string, cents: Option<string>): string
  {
    RemoveSeparators(body) + cents.GetOr("00")
  }

  function Signed(negative: bool, n: int): int
  {
    if negative then -n else n
  }

  /** The amount the (trimmed) text `t` stands for, when its coin count fits in an `i64`. */
  ghost predicate Denotes(t: string, c: Currency)
  {
    exists negative, symbol, body, cents {:trigger MoneyText(t, negative, symbol, body, cents)} ::
      && MoneyText(t, negative, symbol, body, cents)
      && DecimalValue(CoinDigits(body, cents)) <= I64_MAX
      && c.symbol == symbol
      && c.value == Signed(negative, DecimalValue(CoinDigits(body, cents)))
  }

  // ---------------------------------------------------------------------------
  // The matcher
  // ---------------------------------------------------------------------------

  /** The length of the run of digits `s` starts with. */
  function LeadingDigits(s: string): (k: nat)
    ensures k <= |s| && AllDigits(s[..k])
    ensures k < |s| ==> !IsDigit(s[k])
  {
    if s == [] || !IsDigit(s[0]) then 0
    else
      var k := 1 + LeadingDigits(s[1..]);
      assert s[..k] == [s[0]] + s[1..][..k - 1];
      k
  }

  /** Where a digit run is closed by a non-digit, that is where `LeadingDigits` stops. */
  lemma LeadingDigitsExact(s: string, k: nat)
    requires k < |s| && AllDigits(s[..k]) && !IsDigit(s[k])
    ensures LeadingDigits(s) == k
  {
  }

  /** The regex engine's reading of the grouped alternative: the first group is the leading digit run. */
  predicate IsGrouped(b: string): (r: bool)
    decreases |b|
    ensures r == Grouped(b)
  {
    var k := LeadingDigits(b);
    var r := 1 <= k <= 3 && k < |b| && IsSeparator(b[k]) && (ThreeDigits(b[k + 1..]) || IsGrouped(b[k + 1..]));
    assert Grouped(b) ==> r by {
      if Grouped(b) {
        var k' := FirstGroup(b);
        LeadingDigitsExact(b, k');
      }
    }
    assert r ==> Grouped(b) by {
      if r {
        assert AllDigits(b[..k]);
        GroupedIntro(b, k);
      }
    }
    r
  }

  predicate IsBody(b: string): (r: bool)
    ensures r == Body(b)
  {
    (b != [] && AllDigits(b)) || IsGrouped(b)
  }

  /** The capture groups of a successful match: `(-)`, `(\p{Sc})`, the body, and `(\d{2})`. */
  datatype Captures = Captures(minus: bool, symbol: Option<char>, digits: string, cents: Option<string>)

  /**
   * The body and cents of `rest`, the text after sign and symbol. A text
   * ending in a separator and two digits has those as its fraction (a body
   * never ends that way); otherwise all of it must be the body.
   */
  function MatchNumber(rest: string): (m: Option<(string, Option<string>)>)
    ensures m.Some? ==> Number(rest, m.value.0, m.value.1)
  {
    var n := |rest|;
    if n >= 3 && IsSeparator(rest[n - 3]) && IsDigit(rest[n - 2]) && IsDigit(rest[n - 1]) && IsBody(rest[..n - 3]) then
      var d := rest[n - 2..];
      assert AllDigits(d) by { assert d[0] == rest[n - 2] && d[1] == rest[n - 1]; }
      assert rest == rest[..n - 3] + [rest[n - 3]] + d;
      Some((rest[..n - 3], Some(d)))
    else if IsBody(rest) then
      Some((rest, None))
    else
      None
  }

  /** `(-)?`: whether the text starts with a minus sign. */
  function Minus(t: string): bool
  {
    |t| > 0 && t[0] == '-'
  }

  /** `(\p{Sc})?`: the currency symbol just after the optional minus sign. */
  function SymbolAfterSign(t: string): Option<char>
  {
    var i := if Minus(t) then 1 else 0;
    if i < |t| && IsCurrencySymbol(t[i]) then Some(t[i]) else None
  }

  /**
   * The match of the whole trimmed text `t`, or `None` when the first match
   * the regex finds is not all of `t`.
   */
  function MatchMoney(t: string): (m: Option<Captures>)
    ensures m.Some? ==> MoneyText(t, m.value.minus, m.value.symbol, m.value.digits, m.value.cents)
  {
    var minus := Minus(t);
    var symbol := SymbolAfterSign(t);
    var start := |Prefix(minus, symbol)|;
    if start <= |t| then
      assert t[..start] == Prefix(minus, symbol);
      match MatchNumber(t[start..])
      case Some((body, cents)) => Some(Captures(minus, symbol, body, cents))
      case None => None
    else None
  }

  // ---------------------------------------------------------------------------
  // Shape of the grammar's pieces
  // ---------------------------------------------------------------------------

  predicate DigitsAndSeparators(s: string)
  {
    forall i | 0 <= i < |s| :: IsDigit(s[i]) || IsSeparator(s[i])
  }

  /** The first group of a grouped number: its length, the separator after it, and what follows. */
  lemma FirstGroup(b: string) returns (k: int)
    requires Grouped(b)
    ensures 1 <= k <= 3 && k < |b| && AllDigits(b[..k]) && IsSeparator(b[k])
    ensures ThreeDigits(b[k + 1..]) || Grouped(b[k + 1..])
  {
    k :| 1 <= k <= 3 && k < |b| && AllDigits(b[..k]) && IsSeparator(b[k])
         && (ThreeDigits(b[k + 1..]) || Grouped(b[k + 1..]));
  }

  /** A group of one to three digits and a separator, in front of three digits or a grouped number, makes a grouped number. */
  lemma GroupedIntro(b: string, k: int)
    requires 1 <= k <= 3 && k < |b| && AllDigits(b[..k]) && IsSeparator(b[k])
    requires ThreeDigits(b[k + 1..]) || Grouped(b[k + 1..])
    ensures Grouped(b)
  {
  }

  /** A grouped number starts with a digit and ends with a separator and exactly three digits. */
  lemma {:induction false} GroupedEnds(b: string)
    requires Grouped(b)
    ensures |b| >= 5 && IsDigit(b[0]) && IsSeparator(b[|b| - 4]) && ThreeDigits(b[|b| - 3..])
    decreases |b|
  {
    var k := FirstGroup(b);
    var rest := b[k + 1..];
    assert b[0] == b[..k][0];
    if ThreeDigits(rest) {
      assert |b| == k + 4 && b[|b| - 4] == b[k];
      assert b[|b| - 3..] == rest;
    } else {
      GroupedEnds(rest);
      assert b[|b| - 4] == rest[|rest| - 4];
      assert b[|b| - 3..] == rest[|rest| - 3..];
    }
  }

  /** A grouped number holds nothing but digits and separators. */
  lemma {:induction false} GroupedAlphabet(b: string)
    requires Grouped(b)
    ensures DigitsAndSeparators(b)
    decreases |b|
  {
    var k := FirstGroup(b);
    var rest := b[k + 1..];
    if !ThreeDigits(rest) {
      GroupedAlphabet(rest);
    }
    forall i | 0 <= i < |b| ensures IsDigit(b[i]) || IsSeparator(b[i]) {
      if i < k {
        assert b[i] == b[..k][i];
      } else if i > k {
        assert b[i] == rest[i - k - 1];
      }
    }
  }

  /** A body starts and ends with a digit, and never ends with a separator and two digits. */
  lemma BodyShape(b: string)
    requires Body(b)
    ensures b != [] && IsDigit(b[0]) && IsDigit(b[|b| - 1])
    ensures |b| >= 3 ==> !IsSeparator(b[|b| - 3])
    ensures DigitsAndSeparators(b)
  {
    if Grouped(b) {
      GroupedEnds(b);
      GroupedAlphabet(b);
    }
  }

  // ---------------------------------------------------------------------------
  // The matcher finds every decomposition, and there is only one
  // ---------------------------------------------------------------------------

  /** Every reading of a number is the one the matcher returns. */
  lemma MatchNumberComplete(rest: string, body: string, cents: Option<string>)
    requires Number(rest, body, cents)
    ensures MatchNumber(rest) == Some((body, cents))
  {
    BodyShape(body);
    var n := |rest|;
    match cents {
      case Some(d) =>
        assert rest[..n - 3] == body;
        assert rest[n - 2..] == d;
      case None =>
    }
  }

  /**
   * Whenever the text has a decomposition, the matcher returns exactly that
   * one; so a text has at most one decomposition.
   */
  lemma MatchMoneyComplete(t: string, negative: bool, symbol: Option<char>, body: string, cents: Option<string>)
    requires MoneyText(t, negative, symbol, body, cents)
    ensures MatchMoney(t) == Some(Captures(negative, symbol, body, cents))
  {
    var p := Prefix(negative, symbol);
    var rest := t[|p|..];
    BodyShape(body);
    assert rest[0] == body[0];
    assert t == p + rest;
    PrefixCaptured(t, negative, symbol, rest);
    MatchNumberComplete(rest, body, cents);
  }

  /** The sign and symbol groups capture the prefix in front of a number, which starts with a digit. */
  lemma PrefixCaptured(t: string, negative: bool, symbol: Option<char>, rest: string)
    requires symbol.Some? ==> IsCurrencySymbol(symbol.value)
    requires t == Prefix(negative, symbol) + rest && rest != [] && IsDigit(rest[0])
    ensures Minus(t) == negative && SymbolAfterSign(t) == symbol
  {
    var i := if negative then 1 else 0;
    if symbol.Some? {
      SymbolsAreNotPunctuationOrDigits(symbol.value);
      assert t[i] == symbol.value;
    } else {
      SymbolsAreNotPunctuationOrDigits(rest[0]);
      assert t[i] == rest[0];
    }
  }

  /** A text stands for at most one amount. */
  lemma DenotesUnique(t: string, c1: Currency, c2: Currency)
    requires Denotes(t, c1) && Denotes(t, c2)
    ensures c1 == c2
  {
    var n1, s1, b1, d1 :| MoneyText(t, n1, s1, b1, d1) && DecimalValue(CoinDigits(b1, d1)) <= I64_MAX
      && c1.symbol == s1 && c1.value == Signed(n1, DecimalValue(CoinDigits(b1, d1)));
    var n2, s2, b2, d2 :| MoneyText(t, n2, s2, b2, d2) && DecimalValue(CoinDigits(b2, d2)) <= I64_MAX
      && c2.symbol == s2 && c2.value == Signed(n2, DecimalValue(CoinDigits(b2, d2)));
    MatchMoneyComplete(t, n1, s1, b1, d1);
    MatchMoneyComplete(t, n2, s2, b2, d2);
  }

  // ---------------------------------------------------------------------------
  // The operation
  // ---------------------------------------------------------------------------

  /**
   * `str::parse::<i64>` on a string the parser built from digits: `None` for
   * an empty string, a non-digit, or a number above `i64::MAX`.
   */
  method ParseI64(s: string) returns (r: Option<I64>)
    ensures r.Some? <==> s != [] && AllDigits(s) && DecimalValue(s) <= I64_MAX
    ensures r.Some? ==> r.value == DecimalValue(s)
  {
    if |s| == 0 {
      return None;
    }
    var acc := 0;
    var i := 0;
    while i < |s|
      invariant 0 <= i <= |s|
      invariant AllDigits(s[..i])
      invariant acc == DecimalValue(s[..i]) <= I64_MAX
    {
      var c := s[i];
      assert s[..i + 1] == s[..i] + [c];
      if !IsDigit(c) {
        assert !AllDigits(s) by { assert s[i] == c; }
        return None;
      }
      DecimalValueAppend(s[..i], c);
      var next := 10 * acc + DigitValue(c);
      if next > I64_MAX {
        DecimalValuePrefix(s, i + 1);
        return None;
      }
      acc, i := next, i + 1;
    }
    assert s[..i] == s;
    return Some(acc);
  }

  /** The digits handed to the integer parser are never empty and are all ASCII digits. */
  lemma CoinDigitsAreDigits(body: string, cents: Option<string>)
    requires Body(body)
    requires cents.Some? ==> AllDigits(cents.value)
    ensures CoinDigits(body, cents) != [] && AllDigits(CoinDigits(body, cents))
  {
    BodyShape(body);
    RemoveSeparatorsLeavesDigits(body);
    assert body == [body[0]] + body[1..];
    assert DigitsOf(body) != [];
  }

  /** What a text denotes is read off the matcher's captures. */
  lemma DenotesByMatch(t: string, c: Currency)
    ensures Denotes(t, c) <==>
      && MatchMoney(t).Some?
      && var cap := MatchMoney(t).value;
      && DecimalValue(CoinDigits(cap.digits, cap.cents)) <= I64_MAX
      && c.symbol == cap.symbol
      && c.value == Signed(cap.minus, DecimalValue(CoinDigits(cap.digits, cap.cents)))
  {
    if Denotes(t, c) {
      var n, sy, b, d :| MoneyText(t, n, sy, b, d) && DecimalValue(CoinDigits(b, d)) <= I64_MAX
        && c.symbol == sy && c.value == Signed(n, DecimalValue(CoinDigits(b, d)));
      MatchMoneyComplete(t, n, sy, b, d);
    }
  }

  /**
   * `Currency::from_string`. The source's loop over the regex's matches
   * only ever looks at the first one: it returns `None` unless that match is
   * the whole trimmed text, and leaves the loop after reading its captures.
   */
  method FromString(s: string) returns (r: Option<Currency>)
    ensures forall c :: Denotes(Trim(s), c) <==> r == Some(c)
  {
    var t := Trim(s);
    var m := MatchMoney(t);
    if m.None? {
      r := None;
    } else {
      var cap := m.value;
        var multiplier := 1;
      var sign: Option<char> := None;
      var coinStr: string := "";
      if cap.minus {
        multiplier := -1;
      }
      if cap.symbol.Some? {
        if multiplier < 0 {
          sign := Some(t[1]);
        } else {
          sign := Some(t[0]);
        }
      }
      coinStr := RemoveSeparators(cap.digits) + cap.cents.GetOr("00");
      CoinDigitsAreDigits(cap.digits, cap.cents);
      var coin := ParseI64(coinStr);
      assert sign == cap.symbol;
      if coin.Some? {
        assert multiplier * coin.value == Signed(cap.minus, coin.value) by {
          assert multiplier == if cap.minus then -1 else 1;
        }
        r := Some(Currency(sign, multiplier * coin.value));
      } else {
        r := None;
      }
    }
    forall c ensures Denotes(t, c) <==> r == Some(c) {
      DenotesByMatch(t, c);
    }
  }

  // ---------------------------------------------------------------------------
  // What a successful parse says about the text
  // ---------------------------------------------------------------------------

  /** The decomposition behind a parsed amount: the matcher's captures. */
  lemma Decompose(t: string, c: Currency) returns (cap: Captures)
    requires Denotes(t, c)
    ensures cap.minus == Minus(t) && cap.symbol == SymbolAfterSign(t)
    ensures MoneyText(t, cap.minus, cap.symbol, cap.digits, cap.cents)
    ensures DecimalValue(CoinDigits(cap.digits, cap.cents)) <= I64_MAX
    ensures c.symbol == cap.symbol && c.value == Signed(cap.minus, DecimalValue(CoinDigits(cap.digits, cap.cents)))
  {
    var n, sy, b, d :| MoneyText(t, n, sy, b, d) && DecimalValue(CoinDigits(b, d)) <= I64_MAX
      && c.symbol == sy && c.value == Signed(n, DecimalValue(CoinDigits(b, d)));
    MatchMoneyComplete(t, n, sy, b, d);
    CapturedMinus(t);
    cap := Captures(n, sy, b, d);
  }

  /** The text splits into its prefix and the number after it. */
  lemma SplitText(t: string, cap: Captures)
    requires MoneyText(t, cap.minus, cap.symbol, cap.digits, cap.cents)
    ensures var p := Prefix(cap.minus, cap.symbol);
      && |p| <= |t| && t == p + t[|p|..] && Number(t[|p|..], cap.digits, cap.cents)
  {
    var p := Prefix(cap.minus, cap.symbol);
    assert t == t[..|p|] + t[|p|..];
  }


  /** The matcher's minus capture is whether the text starts with `-`. */
  lemma CapturedMinus(t: string)
    requires MatchMoney(t).Some?
    ensures MatchMoney(t).value.minus == Minus(t)
    ensures MatchMoney(t).value.symbol == SymbolAfterSign(t)
  {
  }

  lemma PrependMinus(t: string, symbol: Option<char>, body: string, cents: Option<string>)
    requires MoneyText(t, false, symbol, body, cents)
    ensures MoneyText("-" + t, true, symbol, body, cents)
  {
    var p := Prefix(false, symbol);
    var nt := "-" + t;
    assert Prefix(true, symbol) == "-" + p;
    assert nt[..|p| + 1] == "-" + t[..|p|];
    assert nt[|p| + 1..] == t[|p|..];
  }

  lemma StripMinus(t: string, symbol: Option<char>, body: string, cents: Option<string>)
    requires MoneyText("-" + t, true, symbol, body, cents)
    ensures MoneyText(t, false, symbol, body, cents)
  {
    var p := Prefix(false, symbol);
    var nt := "-" + t;
    assert Prefix(true, symbol) == "-" + p;
    assert t[..|p|] == nt[1..|p| + 1];
    assert t[|p|..] == nt[|p| + 1..];
  }

  /** A decomposition whose coin count fits in an `i64` makes the text stand for that amount. */
  lemma DenotesIntro(t: string, negative: bool, symbol: Option<char>, body: string, cents: Option<string>)
    requires MoneyText(t, negative, symbol, body, cents)
    requires DecimalValue(CoinDigits(body, cents)) <= I64_MAX
    ensures Denotes(t, Currency(symbol, Signed(negative, DecimalValue(CoinDigits(body, cents)))))
  {
  }

  /** A parsed text without a minus sign, prefixed with one, stands for the negated amount. */
  lemma NegateParsed(t: string, c: Currency)
    requires t == [] || t[0] != '-'
    requires Denotes(t, c)
    ensures c.value != I64_MIN && Denotes("-" + t, Currency(c.symbol, -c.value))
  {
    var cap := Decompose(t, c);
    assert !cap.minus;
    NegateText(t, cap.symbol, cap.digits, cap.cents, c.value);
  }

  /** A text that is `-` followed by a text without a minus sign stands for the negation of what the latter stands for. */
  lemma UnnegateParsed(t: string, c: Currency)
    requires t == [] || t[0] != '-'
    requires Denotes("-" + t, c)
    ensures c.value != I64_MIN && Denotes(t, Currency(c.symbol, -c.value))
  {
    var nt := "-" + t;
    assert nt[0] == '-';
    var cap := Decompose(nt, c);
    var v: int := DecimalValue(CoinDigits(cap.digits, cap.cents));
    assert c.value == -v;
    UnnegateText(t, cap.symbol, cap.digits, cap.cents, v);
  }

  lemma NegateText(t: string, symbol: Option<char>, body: string, cents: Option<string>, v: int)
    requires MoneyText(t, false, symbol, body, cents)
    requires v == DecimalValue(CoinDigits(body, cents)) <= I64_MAX
    ensures Denotes("-" + t, Currency(symbol, -v))
  {
    PrependMinus(t, symbol, body, cents);
    DenotesIntro("-" + t, true, symbol, body, cents);
  }

  lemma UnnegateText(t: string, symbol: Option<char>, body: string, cents: Option<string>, v: int)
    requires MoneyText("-" + t, true, symbol, body, cents)
    requires v == DecimalValue(CoinDigits(body, cents)) <= I64_MAX
    ensures Denotes(t, Currency(symbol, v))
  {
    StripMinus(t, symbol, body, cents);
    DenotesIntro(t, false, symbol, body, cents);
  }

  /**
   * A leading minus sign negates: for a text `t` without one, `-t` stands for
   * an amount exactly when `t` stands for its negation.
   */
  lemma NegativeSign(t: string, c: Currency)
    requires t == [] || t[0] != '-'
    requires c.value != I64_MIN
    ensures Denotes(t, c) <==> Denotes("-" + t, Currency(c.symbol, -c.value))
  {
    if Denotes(t, c) {
      NegateParsed(t, c);
    }
    if Denotes("-" + t, Currency(c.symbol, -c.value)) {
      UnnegateParsed(t, Currency(c.symbol, -c.value));
    }
  }

  /**
   * The symbol of a parsed amount is the character right after the optional
   * minus sign when that character is a currency symbol, and `None` otherwise.
   */
  lemma SymbolPosition(t: string, c: Currency)
    requires Denotes(t, c)
    ensures var i := if |t| > 0 && t[0] == '-' then 1 else 0;
      && (c.symbol.Some? <==> i < |t| && IsCurrencySymbol(t[i]))
      && (c.symbol.Some? ==> c.symbol.value == t[i])
  {
    var cap := Decompose(t, c);
  }

  /** The prefix holds no digit and no separator. */
  lemma PrefixChars(negative: bool, symbol: Option<char>)
    requires symbol.Some? ==> IsCurrencySymbol(symbol.value)
    ensures var p := Prefix(negative, symbol);
      && DigitsOf(p) == []
      && forall i | 0 <= i < |p| :: !IsDigit(p[i]) && !IsSeparator(p[i])
  {
    var p := Prefix(negative, symbol);
    if symbol.Some? {
      SymbolsAreNotPunctuationOrDigits(symbol.value);
    }
    assert p == [] || p[1..] == [] || p[1..][1..] == [];
  }

  /** A number is digits and separators only, starting and ending with a digit. */
  lemma NumberShape(rest: string, body: string, cents: Option<string>)
    requires Number(rest, body, cents)
    ensures rest != [] && IsDigit(rest[0]) && IsDigit(rest[|rest| - 1])
    ensures DigitsAndSeparators(rest)
  {
    BodyShape(body);
    if cents.Some? {
      var d := cents.value;
      assert rest[0] == body[0];
      assert rest[|rest| - 1] == d[1];
      forall i | 0 <= i < |rest| ensures IsDigit(rest[i]) || IsSeparator(rest[i]) {
        if i < |body| {
          assert rest[i] == body[i];
        } else if i > |body| {
          assert rest[i] == d[i - |body| - 1];
        }
      }
    }
  }

  /**
   * A text that stands for an amount is its prefix (`-` when negative, then
   * the symbol if any) followed by digits and separators only, and it starts
   * its number with a digit and ends with one.
   */
  lemma DenotesShape(t: string, c: Currency)
    requires Denotes(t, c)
    ensures var k := |Prefix(Minus(t), c.symbol)|;
      && k < |t| && t[..k] == Prefix(Minus(t), c.symbol)
      && IsDigit(t[k]) && IsDigit(t[|t| - 1])
      && DigitsAndSeparators(t[k..])
  {
    var cap := Decompose(t, c);
    TextShape(t, cap);
  }

  lemma TextShape(t: string, cap: Captures)
    requires MoneyText(t, cap.minus, cap.symbol, cap.digits, cap.cents)
    ensures var k := |Prefix(cap.minus, cap.symbol)|;
      && k < |t| && t[..k] == Prefix(cap.minus, cap.symbol)
      && IsDigit(t[k]) && IsDigit(t[|t| - 1])
      && DigitsAndSeparators(t[k..])
  {
    SplitText(t, cap);
    var p := Prefix(cap.minus, cap.symbol);
    var rest := t[|p|..];
    NumberShape(rest, cap.digits, cap.cents);
    assert t[|p|] == rest[0];
    assert t[|t| - 1] == rest[|rest| - 1];
  }

  /** Text after a number that does not end in a digit makes the whole text stand for nothing: there is no parse of a prefix. */
  lemma TrailingTextRejected(t: string, u: string, c: Currency)
    requires u != [] && !IsDigit(u[|u| - 1])
    ensures !Denotes(t + u, c)
  {
    if Denotes(t + u, c) {
      DenotesShape(t + u, c);
    }
  }

  /** Text before a number that starts with neither a minus sign, a currency symbol nor a digit makes the whole text stand for nothing. */
  lemma LeadingTextRejected(u: string, t: string, c: Currency)
    requires u != [] && u[0] != '-' && !IsCurrencySymbol(u[0]) && !IsDigit(u[0])
    ensures !Denotes(u + t, c)
  {
    if Denotes(u + t, c) {
      var ut := u + t;
      assert ut[0] == u[0] && Prefix(false, None) == [];
      SymbolPosition(ut, c);
      DenotesShape(ut, c);
    }
  }

  /**
   * A text that stands for an amount has nothing for `trim` to cut: it starts
   * with `-`, a currency symbol or a digit and ends with a digit.
   */
  lemma DenotedIsTrimmed(t: string, c: Currency)
    requires Denotes(t, c)
    ensures Trim(t) == t
  {
    DenotesShape(t, c);
    SymbolPosition(t, c);
    if !Minus(t) && c.symbol.None? {
      assert Prefix(false, None) == [];
    }
    assert IsDigit(t[0]) || t[0] == '-' || IsCurrencySymbol(t[0]);
    NotWhitespace(t[0]);
    NotWhitespace(t[|t| - 1]);
    TrimKeepsTrimmed(t);
  }

  /**
   * Whether the third character from the end is a separator. On a text the
   * grammar reads, that is where a fraction starts: the two characters after
   * it are then its cents digits (`CentsAtEnd`).
   */
  predicate HasCents(t: string)
  {
    |t| >= 3 && IsSeparator(t[|t| - 3])
  }

  /** A number has cents exactly when its third character from the end is a separator. */
  lemma NumberCents(rest: string, body: string, cents: Option<string>)
    requires Number(rest, body, cents)
    ensures cents.Some? <==> HasCents(rest)
  {
    BodyShape(body);
    if cents.Some? {
      assert rest[|rest| - 3] == rest[|body|];
    }
  }

  /** Characters that are not separators, put in front, do not change whether a text ends with cents. */
  lemma HasCentsAfter(p: string, rest: string)
    requires forall i | 0 <= i < |p| :: !IsSeparator(p[i])
    ensures HasCents(p + rest) == HasCents(rest)
  {
    var t := p + rest;
    if |t| >= 3 {
      if |rest| >= 3 {
        assert t[|t| - 3] == rest[|rest| - 3];
      } else {
        assert t[|t| - 3] == p[|t| - 3];
      }
    }
  }

  /** The cents capture is present exactly when the third character from the end of the text is a separator. */
  lemma CentsAtEnd(t: string, cap: Captures)
    requires MoneyText(t, cap.minus, cap.symbol, cap.digits, cap.cents)
    ensures cap.cents.Some? <==> HasCents(t)
  {
    SplitText(t, cap);
    var p := Prefix(cap.minus, cap.symbol);
    NumberCents(t[|p|..], cap.digits, cap.cents);
    PrefixChars(cap.minus, cap.symbol);
    HasCentsAfter(p, t[|p|..]);
  }

  /** The digits of a parsed text: those of the body, then the cents. */
  lemma TextDigits(t: string, cap: Captures)
    requires MoneyText(t, cap.minus, cap.symbol, cap.digits, cap.cents)
    ensures DigitsOf(t) == RemoveSeparators(cap.digits) + cap.cents.GetOr("")
  {
    SplitText(t, cap);
    var p := Prefix(cap.minus, cap.symbol);
    PrefixChars(cap.minus, cap.symbol);
    DigitsOfConcat(p, t[|p|..]);
    NumberDigits(t[|p|..], cap.digits, cap.cents);
  }

  /** The coin count of a decomposition, read off the text. */
  lemma CoinValue(t: string, cap: Captures)
    requires MoneyText(t, cap.minus, cap.symbol, cap.digits, cap.cents)
    ensures DecimalValue(CoinDigits(cap.digits, cap.cents))
      == if HasCents(t) then DecimalValue(DigitsOf(t)) else 100 * DecimalValue(DigitsOf(t))
  {
    TextDigits(t, cap);
    CentsAtEnd(t, cap);
    if cap.cents.None? {
      assert DigitsOf(t) == RemoveSeparators(cap.digits);
      DecimalValueHundredfold(DigitsOf(t));
    }
  }

  /** The digits of a number: those of its body, then its cents. */
  lemma NumberDigits(rest: string, body: string, cents: Option<string>)
    requires Number(rest, body, cents)
    ensures DigitsOf(rest) == RemoveSeparators(body) + cents.GetOr("")
  {
    BodyShape(body);
    RemoveSeparatorsLeavesDigits(body);
    if cents.Some? {
      var d := cents.value;
      var sep := rest[|body|];
      assert rest == body + [sep] + d;
      DigitsOfConcat(body + [sep], d);
      DigitsOfConcat(body, [sep]);
      DigitsOfAllDigits(d);
      assert DigitsOf([sep]) == [];
    } else {
      assert body + "" == body;
    }
  }

  /**
   * The value of a parsed amount, read off the text: all of its digits as one
   * decimal number, times 100 when there are no cents, negated after a
   * leading minus sign.
   */
  lemma DenotesValue(t: string, c: Currency)
    requires Denotes(t, c)
    ensures c.value == Signed(Minus(t), if HasCents(t) then DecimalValue(DigitsOf(t)) else 100 * DecimalValue(DigitsOf(t)))
  {
    var cap := Decompose(t, c);
    CoinValue(t, cap);
  }

  /** Every parsed amount lies in `[-i64::MAX, i64::MAX]`: `i64::MIN` is never produced. */
  lemma DenotesBound(t: string, c: Currency)
    requires Denotes(t, c)
    ensures -I64_MAX <= c.value <= I64_MAX
  {
    var cap := Decompose(t, c);
  }
}
