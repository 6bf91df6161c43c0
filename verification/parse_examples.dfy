/**
 * The amounts `Currency::from_string` is documented and tested to produce
 * (src/lib.rs, tests/lib.rs), and texts it rejects. The lemmas establish
 * what each text denotes; the `Parse` methods call `FromString` on the text
 * and state its result, using that a denoting text is its own trim.
 */
module ParseExamples {
  import opened Wrappers
  import opened Money
  import opened Text
  import opened Parser

  /**
   * A text that reads as a prefix followed by a number denotes the amount of
   * its coin digits.
   */
  lemma Reads(t: string, negative: bool, symbol: Option<char>, rest: string, body: string, cents: Option<string>, coin: string, c: Currency)
    requires symbol.Some? ==> IsCurrencySymbol(symbol.value)
    requires t == Prefix(negative, symbol) + rest
    requires Number(rest, body, cents)
    requires CoinDigits(body, cents) == coin && DecimalValue(coin) <= I64_MAX
    requires c == Currency(symbol, Signed(negative, DecimalValue(coin)))
    ensures Denotes(t, c)
  {
    var p := Prefix(negative, symbol);
    assert t[..|p|] == p && t[|p|..] == rest;
    DenotesIntro(t, negative, symbol, body, cents);
  }

  // The numbers after sign and symbol in the examples, and their coin digits

  lemma FourThirtyTwo()
    ensures Number("4.32", "4", Some("32")) && CoinDigits("4", Some("32")) == "432"
  {
    assert "4.32" == "4" + "." + "32";
  }

  lemma FourHundredTwentyFour()
    ensures Number("424.44", "424", Some("44")) && CoinDigits("424", Some("44")) == "42444"
  {
    assert "424.44" == "424" + "." + "44";
  }

  lemma TwelveCommaZero()
    ensures Number("12,00", "12", Some("00")) && CoinDigits("12", Some("00")) == "1200"
  {
    assert "12,00" == "12" + "," + "00";
  }

  lemma Twelve()
    ensures Number("12", "12", None) && CoinDigits("12", None) == "1200"
  {
  }

  lemma TwelveTen()
    ensures Number("12.10", "12", Some("10")) && CoinDigits("12", Some("10")) == "1210"
  {
    assert "12.10" == "12" + "." + "10";
  }

  lemma TwelveThousandPointBody()
    ensures Grouped("12,000")
  {
    assert "12,000"[..2] == "12" && "12,000"[3..] == "000";
  }

  lemma TwelveThousandPointCoins()
    ensures CoinDigits("12,000", Some("99")) == "1200099"
  {
    assert "12,000"[1..] == "2,000";
    assert "2,000"[1..] == ",000";
    assert ",000"[1..] == "000";
    assert "000"[1..] == "00";
    assert "00"[1..] == "0";
  }

  lemma TwelveThousandPoint()
    ensures Number("12,000.99", "12,000", Some("99")) && CoinDigits("12,000", Some("99")) == "1200099"
  {
    assert "12,000.99" == "12,000" + "." + "99";
    TwelveThousandPointBody();
    TwelveThousandPointCoins();
  }

  lemma TwelveThousandCommaBody()
    ensures Grouped("12.000")
  {
    assert "12.000"[..2] == "12" && "12.000"[3..] == "000";
  }

  lemma TwelveThousandCommaCoins()
    ensures CoinDigits("12.000", Some("99")) == "1200099"
  {
    assert "12.000"[1..] == "2.000";
    assert "2.000"[1..] == ".000";
    assert ".000"[1..] == "000";
    assert "000"[1..] == "00";
    assert "00"[1..] == "0";
  }

  lemma TwelveThousandComma()
    ensures Number("12.000,99", "12.000", Some("99")) && CoinDigits("12.000", Some("99")) == "1200099"
  {
    assert "12.000,99" == "12.000" + "," + "99";
    TwelveThousandCommaBody();
    TwelveThousandCommaCoins();
  }

  lemma Zero()
    ensures Number("0", "0", None) && CoinDigits("0", None) == "000"
  {
  }

  lemma ThreeZeros()
    ensures Number("000", "000", None) && CoinDigits("000", None) == "00000"
  {
  }

  lemma HalfComma()
    ensures Number("0,50", "0", Some("50")) && CoinDigits("0", Some("50")) == "050"
  {
    assert "0,50" == "0" + "," + "50";
  }

  lemma HalfPoint()
    ensures Number("0.50", "0", Some("50")) && CoinDigits("0", Some("50")) == "050"
  {
    assert "0.50" == "0" + "." + "50";
  }

  // Values of the coin-digit strings

  lemma Value000()
    ensures DecimalValue("000") == 0
  {
    assert "000"[..2] == "00";
    assert "00"[..1] == "0";
    assert "0"[..0] == "";
  }

  lemma Value050()
    ensures DecimalValue("050") == 50
  {
    assert "050"[..2] == "05";
    assert "05"[..1] == "0";
    assert "0"[..0] == "";
  }

  lemma Value432()
    ensures DecimalValue("432") == 432
  {
    assert "432"[..2] == "43";
    assert "43"[..1] == "4";
    assert "4"[..0] == "";
  }

  lemma Value1200()
    ensures DecimalValue("1200") == 1200
  {
    assert "1200"[..3] == "120";
    assert "120"[..2] == "12";
    assert "12"[..1] == "1";
    assert "1"[..0] == "";
  }

  lemma Value1210()
    ensures DecimalValue("1210") == 1210
  {
    assert "1210"[..3] == "121";
    assert "121"[..2] == "12";
    assert "12"[..1] == "1";
    assert "1"[..0] == "";
  }

  lemma Value00000()
    ensures DecimalValue("00000") == 0
  {
    assert "00000"[..4] == "0000";
    assert "0000"[..3] == "000";
    assert "000"[..2] == "00";
    assert "00"[..1] == "0";
    assert "0"[..0] == "";
  }

  lemma Value42444()
    ensures DecimalValue("42444") == 42444
  {
    assert "42444"[..4] == "4244";
    assert "4244"[..3] == "424";
    assert "424"[..2] == "42";
    assert "42"[..1] == "4";
    assert "4"[..0] == "";
  }

  lemma Value1200099()
    ensures DecimalValue("1200099") == 1200099
  {
    assert "1200099"[..6] == "120009";
    assert "120009"[..5] == "12000";
    assert "12000"[..4] == "1200";
    assert "1200"[..3] == "120";
    assert "120"[..2] == "12";
    assert "12"[..1] == "1";
    assert "1"[..0] == "";
  }

  // The documented and tested amounts

  /** `$4.32` is 432 cents of `$` (src/lib.rs:52). */
  lemma DollarsAndCents()
    ensures Denotes("$4.32", Currency(Some('$'), 432))
  {
    assert "$4.32" == Prefix(false, Some('$')) + "4.32";
    FourThirtyTwo();
    Value432();
    Reads("$4.32", false, Some('$'), "4.32", "4", Some("32"), "432", Currency(Some('$'), 432));
  }

  /** `-$4.32` is -432 cents of `$` (src/lib.rs:53). */
  lemma NegativeDollarsAndCents()
    ensures Denotes("-$4.32", Currency(Some('$'), -432))
  {
    assert "-$4.32" == Prefix(true, Some('$')) + "4.32";
    FourThirtyTwo();
    Value432();
    Reads("-$4.32", true, Some('$'), "4.32", "4", Some("32"), "432", Currency(Some('$'), -432));
  }

  /** `424.44` is 42444 cents (src/lib.rs:54). */
  lemma NoSymbol()
    ensures Denotes("424.44", Currency(None, 42444))
  {
    assert "424.44" == Prefix(false, None) + "424.44";
    FourHundredTwentyFour();
    Value42444();
    Reads("424.44", false, None, "424.44", "424", Some("44"), "42444", Currency(None, 42444));
  }

  /** `£12,00` is 1200 cents of `£` (src/lib.rs:55). */
  lemma CommaCents()
    ensures Denotes("£12,00", Currency(Some('£'), 1200))
  {
    assert "£12,00" == Prefix(false, Some('£')) + "12,00";
    TwelveCommaZero();
    Value1200();
    Reads("£12,00", false, Some('£'), "12,00", "12", Some("00"), "1200", Currency(Some('£'), 1200));
  }

  /** `¥12` is 1200 cents of `¥` (src/lib.rs:56). */
  lemma WholeYen()
    ensures Denotes("¥12", Currency(Some('¥'), 1200))
  {
    assert "¥12" == Prefix(false, Some('¥')) + "12";
    Twelve();
    Value1200();
    Reads("¥12", false, Some('¥'), "12", "12", None, "1200", Currency(Some('¥'), 1200));
  }

  /** `$12.10` is 1210 cents of `$` (tests/lib.rs:71-73). */
  lemma Dollars()
    ensures Denotes("$12.10", Currency(Some('$'), 1210))
  {
    assert "$12.10" == Prefix(false, Some('$')) + "12.10";
    TwelveTen();
    Value1210();
    Reads("$12.10", false, Some('$'), "12.10", "12", Some("10"), "1210", Currency(Some('$'), 1210));
  }

  /** `$12` is 1200 cents of `$` (tests/lib.rs:75-77). */
  lemma WholeDollars()
    ensures Denotes("$12", Currency(Some('$'), 1200))
  {
    assert "$12" == Prefix(false, Some('$')) + "12";
    Twelve();
    Value1200();
    Reads("$12", false, Some('$'), "12", "12", None, "1200", Currency(Some('$'), 1200));
  }

  /** `12,000.99` is 1200099 cents (tests/lib.rs:79-81). */
  lemma GroupedThousands()
    ensures Denotes("12,000.99", Currency(None, 1200099))
  {
    assert "12,000.99" == Prefix(false, None) + "12,000.99";
    TwelveThousandPoint();
    Value1200099();
    Reads("12,000.99", false, None, "12,000.99", "12,000", Some("99"), "1200099", Currency(None, 1200099));
  }

  /** `£12.000,99` is 1200099 cents of `£` (tests/lib.rs:83-85). */
  lemma EuropeanGrouped()
    ensures Denotes("£12.000,99", Currency(Some('£'), 1200099))
  {
    assert "£12.000,99" == Prefix(false, Some('£')) + "12.000,99";
    TwelveThousandComma();
    Value1200099();
    Reads("£12.000,99", false, Some('£'), "12.000,99", "12.000", Some("99"), "1200099", Currency(Some('£'), 1200099));
  }

  /** `-$12.10` is -1210 cents of `$` (tests/lib.rs:88-91). */
  lemma NegativeDollars()
    ensures Denotes("-$12.10", Currency(Some('$'), -1210))
  {
    assert "-$12.10" == Prefix(true, Some('$')) + "12.10";
    TwelveTen();
    Value1210();
    Reads("-$12.10", true, Some('$'), "12.10", "12", Some("10"), "1210", Currency(Some('$'), -1210));
  }

  /** `-$12` is -1200 cents of `$` (tests/lib.rs:93-95). */
  lemma NegativeWholeDollars()
    ensures Denotes("-$12", Currency(Some('$'), -1200))
  {
    assert "-$12" == Prefix(true, Some('$')) + "12";
    Twelve();
    Value1200();
    Reads("-$12", true, Some('$'), "12", "12", None, "1200", Currency(Some('$'), -1200));
  }

  /** `-12,000.99` is -1200099 cents (tests/lib.rs:97-99). */
  lemma NegativeGroupedThousands()
    ensures Denotes("-12,000.99", Currency(None, -1200099))
  {
    assert "-12,000.99" == Prefix(true, None) + "12,000.99";
    TwelveThousandPoint();
    Value1200099();
    Reads("-12,000.99", true, None, "12,000.99", "12,000", Some("99"), "1200099", Currency(None, -1200099));
  }

  /** `-£12.000,99` is -1200099 cents of `£` (tests/lib.rs:101-103). */
  lemma NegativeEuropeanGrouped()
    ensures Denotes("-£12.000,99", Currency(Some('£'), -1200099))
  {
    assert "-£12.000,99" == Prefix(true, Some('£')) + "12.000,99";
    TwelveThousandComma();
    Value1200099();
    Reads("-£12.000,99", true, Some('£'), "12.000,99", "12.000", Some("99"), "1200099", Currency(Some('£'), -1200099));
  }

  /** `€0` is 0 cents of `€` (tests/lib.rs:106-108). */
  lemma ZeroEuros()
    ensures Denotes("€0", Currency(Some('€'), 0))
  {
    assert "€0" == Prefix(false, Some('€')) + "0";
    Zero();
    Value000();
    Reads("€0", false, Some('€'), "0", "0", None, "000", Currency(Some('€'), 0));
  }

  /** `000` is 0 cents (tests/lib.rs:110-112). */
  lemma Zeros()
    ensures Denotes("000", Currency(None, 0))
  {
    assert "000" == Prefix(false, None) + "000";
    ThreeZeros();
    Value00000();
    Reads("000", false, None, "000", "000", None, "00000", Currency(None, 0));
  }

  /** `€0,50` is 50 cents of `€` (tests/lib.rs:114-116). */
  lemma EuroCents()
    ensures Denotes("€0,50", Currency(Some('€'), 50))
  {
    assert "€0,50" == Prefix(false, Some('€')) + "0,50";
    HalfComma();
    Value050();
    Reads("€0,50", false, Some('€'), "0,50", "0", Some("50"), "050", Currency(Some('€'), 50));
  }

  /** `-€0.50` is -50 cents of `€` (tests/lib.rs:118-120). */
  lemma NegativeEuroCents()
    ensures Denotes("-€0.50", Currency(Some('€'), -50))
  {
    assert "-€0.50" == Prefix(true, Some('€')) + "0.50";
    HalfPoint();
    Value050();
    Reads("-€0.50", true, Some('€'), "0.50", "0", Some("50"), "050", Currency(Some('€'), -50));
  }

  // Texts that are rejected

  lemma UngroupedBody()
    ensures !IsBody("1234.567")
  {
    var t := "1234.567";
    assert !IsDigit(t[4]);
    LeadingDigitsExact(t, 4);
    assert t[..4] == "1234";
  }

  lemma UngroupedNumber()
    ensures MatchNumber("1234.567").None?
  {
    UngroupedBody();
  }

  lemma UngroupedPrefix()
    ensures SymbolAfterSign("1234.567").None? && !Minus("1234.567")
  {
  }

  lemma UngroupedMatch()
    ensures MatchMoney("1234.567").None?
  {
    assert "1234.567"[0..] == "1234.567";
    UngroupedNumber();
    UngroupedPrefix();
  }

  /**
   * `1234.567` is rejected: four digits are too many for a group, and three
   * after the separator are not cents (the regex's first match is only
   * `1234`, not the whole text).
   */
  lemma UngroupedRejected(c: Currency)
    ensures !Denotes("1234.567", c)
  {
    UngroupedMatch();
    DenotesByMatch("1234.567", c);
  }

  lemma OneCentDigitMatch()
    ensures MatchMoney("$4.3").None?
  {
    assert "$4.3"[1..] == "4.3";
    assert !IsDigit("4.3"[1]);
    LeadingDigitsExact("4.3", 1);
    assert "4.3"[..1] == "4";
    assert "4.3"[2..] == "3";
  }

  /** `$4.3` is rejected: cents take exactly two digits, and a lone digit after a separator is not a group. */
  lemma OneCentDigitRejected(c: Currency)
    ensures !Denotes("$4.3", c)
  {
    OneCentDigitMatch();
    DenotesByMatch("$4.3", c);
  }

  // What `FromString` returns on the documented and tested texts

  /** `from_string("$4.32")` is `Some(Currency(Some('$'), 432))` (src/lib.rs:52). */
  method ParseDollarsAndCents() returns (r: Option<Currency>)
    ensures r == Some(Currency(Some('$'), 432))
  {
    r := FromString("$4.32");
    DollarsAndCents();
    DenotedIsTrimmed("$4.32", Currency(Some('$'), 432));
  }

  /** `from_string("-$4.32")` is `Some(Currency(Some('$'), -432))` (src/lib.rs:53). */
  method ParseNegativeDollarsAndCents() returns (r: Option<Currency>)
    ensures r == Some(Currency(Some('$'), -432))
  {
    r := FromString("-$4.32");
    NegativeDollarsAndCents();
    DenotedIsTrimmed("-$4.32", Currency(Some('$'), -432));
  }

  /** `from_string("424.44")` is `Some(Currency(None, 42444))` (src/lib.rs:54). */
  method ParseNoSymbol() returns (r: Option<Currency>)
    ensures r == Some(Currency(None, 42444))
  {
    r := FromString("424.44");
    NoSymbol();
    DenotedIsTrimmed("424.44", Currency(None, 42444));
  }

  /** `from_string("£12,00")` is `Some(Currency(Some('£'), 1200))` (src/lib.rs:55). */
  method ParseCommaCents() returns (r: Option<Currency>)
    ensures r == Some(Currency(Some('£'), 1200))
  {
    r := FromString("£12,00");
    CommaCents();
    DenotedIsTrimmed("£12,00", Currency(Some('£'), 1200));
  }

  /** `from_string("¥12")` is `Some(Currency(Some('¥'), 1200))` (src/lib.rs:56). */
  method ParseWholeYen() returns (r: Option<Currency>)
    ensures r == Some(Currency(Some('¥'), 1200))
  {
    r := FromString("¥12");
    WholeYen();
    DenotedIsTrimmed("¥12", Currency(Some('¥'), 1200));
  }

  /** `from_string("$12.10")` is `Some(Currency(Some('$'), 1210))` (tests/lib.rs:71-73). */
  method ParseDollars() returns (r: Option<Currency>)
    ensures r == Some(Currency(Some('$'), 1210))
  {
    r := FromString("$12.10");
    Dollars();
    DenotedIsTrimmed("$12.10", Currency(Some('$'), 1210));
  }

  /** `from_string("$12")` is `Some(Currency(Some('$'), 1200))` (tests/lib.rs:75-77). */
  method ParseWholeDollars() returns (r: Option<Currency>)
    ensures r == Some(Currency(Some('$'), 1200))
  {
    r := FromString("$12");
    WholeDollars();
    DenotedIsTrimmed("$12", Currency(Some('$'), 1200));
  }

  /** `from_string("12,000.99")` is `Some(Currency(None, 1200099))` (tests/lib.rs:79-81). */
  method ParseGroupedThousands() returns (r: Option<Currency>)
    ensures r == Some(Currency(None, 1200099))
  {
    r := FromString("12,000.99");
    GroupedThousands();
    DenotedIsTrimmed("12,000.99", Currency(None, 1200099));
  }

  /** `from_string("£12.000,99")` is `Some(Currency(Some('£'), 1200099))` (tests/lib.rs:83-85). */
  method ParseEuropeanGrouped() returns (r: Option<Currency>)
    ensures r == Some(Currency(Some('£'), 1200099))
  {
    r := FromString("£12.000,99");
    EuropeanGrouped();
    DenotedIsTrimmed("£12.000,99", Currency(Some('£'), 1200099));
  }

  /** `from_string("-$12.10")` is `Some(Currency(Some('$'), -1210))` (tests/lib.rs:88-91). */
  method ParseNegativeDollars() returns (r: Option<Currency>)
    ensures r == Some(Currency(Some('$'), -1210))
  {
    r := FromString("-$12.10");
    NegativeDollars();
    DenotedIsTrimmed("-$12.10", Currency(Some('$'), -1210));
  }

  /** `from_string("-$12")` is `Some(Currency(Some('$'), -1200))` (tests/lib.rs:93-95). */
  method ParseNegativeWholeDollars() returns (r: Option<Currency>)
    ensures r == Some(Currency(Some('$'), -1200))
  {
    r := FromString("-$12");
    NegativeWholeDollars();
    DenotedIsTrimmed("-$12", Currency(Some('$'), -1200));
  }

  /** `from_string("-12,000.99")` is `Some(Currency(None, -1200099))` (tests/lib.rs:97-99). */
  method ParseNegativeGroupedThousands() returns (r: Option<Currency>)
    ensures r == Some(Currency(None, -1200099))
  {
    r := FromString("-12,000.99");
    NegativeGroupedThousands();
    DenotedIsTrimmed("-12,000.99", Currency(None, -1200099));
  }

  /** `from_string("-£12.000,99")` is `Some(Currency(Some('£'), -1200099))` (tests/lib.rs:101-103). */
  method ParseNegativeEuropeanGrouped() returns (r: Option<Currency>)
    ensures r == Some(Currency(Some('£'), -1200099))
  {
    r := FromString("-£12.000,99");
    NegativeEuropeanGrouped();
    DenotedIsTrimmed("-£12.000,99", Currency(Some('£'), -1200099));
  }

  /** `from_string("€0")` is `Some(Currency(Some('€'), 0))` (tests/lib.rs:106-108). */
  method ParseZeroEuros() returns (r: Option<Currency>)
    ensures r == Some(Currency(Some('€'), 0))
  {
    r := FromString("€0");
    ZeroEuros();
    DenotedIsTrimmed("€0", Currency(Some('€'), 0));
  }

  /** `from_string("000")` is `Some(Currency(None, 0))` (tests/lib.rs:110-112). */
  method ParseZeros() returns (r: Option<Currency>)
    ensures r == Some(Currency(None, 0))
  {
    r := FromString("000");
    Zeros();
    DenotedIsTrimmed("000", Currency(None, 0));
  }

  /** `from_string("€0,50")` is `Some(Currency(Some('€'), 50))` (tests/lib.rs:114-116). */
  method ParseEuroCents() returns (r: Option<Currency>)
    ensures r == Some(Currency(Some('€'), 50))
  {
    r := FromString("€0,50");
    EuroCents();
    DenotedIsTrimmed("€0,50", Currency(Some('€'), 50));
  }

  /** `from_string("-€0.50")` is `Some(Currency(Some('€'), -50))` (tests/lib.rs:118-120). */
  method ParseNegativeEuroCents() returns (r: Option<Currency>)
    ensures r == Some(Currency(Some('€'), -50))
  {
    r := FromString("-€0.50");
    NegativeEuroCents();
    DenotedIsTrimmed("-€0.50", Currency(Some('€'), -50));
  }

  /** `from_string("1234.567")` is `None`. */
  method ParseUngrouped() returns (r: Option<Currency>)
    ensures r == None
  {
    r := FromString("1234.567");
    NotWhitespace('1');
    NotWhitespace('7');
    TrimKeepsTrimmed("1234.567");
    if r.Some? {
      UngroupedRejected(r.value);
    }
  }

  /** `from_string("$4.3")` is `None`. */
  method ParseOneCentDigit() returns (r: Option<Currency>)
    ensures r == None
  {
    r := FromString("$4.3");
    NotWhitespace('$');
    NotWhitespace('3');
    TrimKeepsTrimmed("$4.3");
    if r.Some? {
      OneCentDigitRejected(r.value);
    }
  }
}
