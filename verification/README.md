# Currency: a verified model

The `currency` crate is a small money type. `Currency(Option<char>, i64)` pairs
an optional currency symbol with a count of minor units ("coins"): 100 coins
make one banknote, and `Currency(Some('$'), 432)` is `$4.32`. This project
models the crate's core in Dafny and proves what it promises:

- **The value type** (`money.dfy`, module `Money`) covers:
  - `new()` and `default()`, both the blank amount `(None, 0)`;
  - the derived structural equality;
  - the derived `PartialOrd`, which compares the symbol first (`None` below
    every symbol, symbols by code point) and the coin count second.
- **The parser** `Currency::from_string` (`text.dfy` and `parser.dfy`,
  modules `Text` and `Parser`). It trims the text and requires the whole
  trimmed text to be a single match of the pattern
  `(?:\b|(-)?)(\p{Sc})?((?:(?:\d{1,3}[\.,])+\d{3})|\d+)(?:[\.,](\d{2}))?\b`.
  It then removes every `.` and `,` from the body, appends the two cents
  digits or `"00"`, reads the result as an `i64`, and negates it after a
  leading `-`. The model works in three layers:
  - the grammar, as a relation `MoneyText` over the text and its captures;
  - a deterministic matcher `MatchMoney`, proved to return exactly the one
    decomposition the grammar allows;
  - `FromString`, a method that performs the source's steps on the
    matcher's captures and is proved equal to the relation `Denotes`.
  The properties of `from_string` are then lemmas about `Denotes`.
- **The operators** (`arithmetic.dfy`, module `Arithmetic`):
  - `+` succeeds when the symbols are equal or the left operand has none,
    and takes the right operand's symbol;
  - `-` succeeds only for equal symbols;
  - `*` by an `i64` works on either side;
  - `/` by an `i64` rounds toward zero.

  A `panic!` is the `Panic` outcome.
- **Summation** (`summation.dfy`, module `Summation`): `Sum` is the left fold
  of `+` from `default()`.

`wrappers.dfy` holds the `Option` type.

Four points about the code worth knowing. The model follows the code:

- The ordering is lexicographic on `(symbol, value)`. It is not an ordering by value alone: `$` (U+0024) sorts below `£` (U+00A3), so `$100 < £1`.
- `default()` is an identity only on the left. `c + default()` panics whenever `c` has a symbol, because the symbol wildcard of `+` applies to the left operand only.
- The documentation of `+` (src/math.rs:9) says it panics when the two amounts carry different symbols. The code (src/math.rs:15) lets an amount without a symbol be added to one with a symbol, so `(None, 1) + ($, 1)` is `($, 2)`.
- The tests build amounts with named fields (`Currency { symbol, value }`), while `src/lib.rs` declares a tuple struct. The model names the two fields `symbol` and `value`.

## Model

| member | source | states |
|---|---|---|
| Money.New | src/lib.rs:37-39 | `new()` is the blank amount, the same value as `default()` |
| Money.Default | src/lib.rs:108-112 | `default()` has no symbol and zero coins |
| Money.Compare | src/lib.rs:24-25 | the derived `partial_cmp` answers `Equal` exactly when the derived `==` holds, i.e. both fields are equal |
| Money.CompareAntisymmetric | src/lib.rs:24-25 | `a.partial_cmp(b)` is `Less` exactly when `b.partial_cmp(a)` is `Greater` |
| Money.BelowTransitive | src/lib.rs:24-25 | the derived `<` is transitive |
| Money.BelowTrichotomy | src/lib.rs:24-25 | the derived ordering is total and strict: exactly one of `a < b`, `a == b`, `b < a` |
| Money.SameSymbolComparesValues | src/lib.rs:24-25 | amounts with the same symbol compare as their coin counts, both for `<` and for `Equal` |
| Money.SymbolDecidesFirst | src/lib.rs:24-25 | amounts with different symbols compare as their symbols, whatever their coin counts, and never as `Equal` |
| Money.OrderExamples | tests/lib.rs:23-54 | the equalities and orderings the crate's tests expect of `$12.10`, `$12.11`, `$13.11` |
| Text.SkipWhitespace | src/lib.rs:62 | the first non-whitespace index at or after `k`, with only whitespace skipped |
| Text.SkipWhitespaceBack | src/lib.rs:62 | the end of `s[lo..hi]` once trailing whitespace is dropped, with only whitespace dropped |
| Text.Trim | src/lib.rs:62 | `trim` yields a contiguous part of the text that neither starts nor ends with whitespace, and everything cut from either side is whitespace |
| Text.TrimKeepsTrimmed | src/lib.rs:62 | `trim` leaves text alone when it neither starts nor ends with whitespace |
| Text.ListedIsMembership | src/lib.rs:62 | the whitespace test by table lookup is membership in the table |
| Text.TableInBands | src/lib.rs:62 | each entry of the whitespace table lies in one of the Unicode White_Space bands: ASCII control and space, U+0085, U+00A0, U+1680, U+2000-U+205F, U+3000 |
| Text.ListedSuffixInBands | src/lib.rs:62 | a character found in a tail of the whitespace table lies in one of those bands |
| Text.WhitespaceBands | src/lib.rs:62 | every whitespace character lies in one of those bands |
| Text.NotWhitespace | src/lib.rs:62 | digits, `-` and currency symbols are not whitespace, so `trim` never removes them |
| Text.SymbolsAreNotPunctuationOrDigits | src/lib.rs:64 | no `\p{Sc}` character is a digit, a separator or `-`, so the pattern's groups cannot claim each other's characters |
| Text.DigitValue | src/lib.rs:99 | an ASCII digit's value is between 0 and 9 and is its distance from `'0'` |
| Text.DecimalValueAppend | src/lib.rs:99 | reading one more digit multiplies the number by ten and adds the digit |
| Text.DecimalValueHundredfold | src/lib.rs:93-94 | appending `"00"` multiplies by 100, so a whole amount counts as its coins |
| Text.DecimalValuePrefix | src/lib.rs:99 | a prefix of a digit string never reads as more than the whole |
| Text.RemoveSeparators | src/lib.rs:93 | `replace(".", "").replace(",", "")` leaves no separator, is no longer than its input, empties an all-separator text and keeps a separator-free text unchanged |
| Text.RemoveSeparatorsConcat | src/lib.rs:93 | removing separators distributes over concatenation |
| Text.DigitsOf | src/lib.rs:93-94 | the digits of a text are all digits and no more than the text |
| Text.DigitsOfConcat | src/lib.rs:93-94 | taking the digits distributes over concatenation |
| Text.RemoveSeparatorsLeavesDigits | src/lib.rs:93 | in text of digits and separators, removing the separators leaves exactly its digits |
| Text.DigitsOfAllDigits | src/lib.rs:93-94 | a digit string is its own digits |
| Parser.LeadingDigits | src/lib.rs:64 | the length of the digit run a text starts with: all digits up to it, and a non-digit (or the end) right after |
| Parser.LeadingDigitsExact | src/lib.rs:64 | a digit run closed by a non-digit is the leading run |
| Parser.IsGrouped | src/lib.rs:64 | the executable test for `(?:\d{1,3}[\.,])+\d{3}` agrees with the grammar `Grouped` |
| Parser.IsBody | src/lib.rs:64 | the executable test for capture group 3 agrees with the grammar `Body` |
| Parser.GroupedEnds | src/lib.rs:64 | a grouped number starts with a digit and ends with a separator and exactly three digits |
| Parser.GroupedAlphabet | src/lib.rs:64 | a grouped number holds only digits and separators |
| Parser.FirstGroup | src/lib.rs:64 | a grouped number opens with one to three digits and a separator, followed by three digits or another grouped number |
| Parser.GroupedIntro | src/lib.rs:64 | conversely, one to three digits, a separator and then three digits or a grouped number make a grouped number |
| Parser.BodyShape | src/lib.rs:64 | a body starts and ends with a digit, is made of digits and separators, and never ends with a separator and two digits |
| Parser.MatchNumber | src/lib.rs:64 | what the number matcher returns is a reading of its input as body and cents |
| Parser.MatchNumberComplete | src/lib.rs:64 | every reading of a number as body and cents is the one the matcher returns |
| Parser.MatchMoney | src/lib.rs:64-69 | what the matcher returns is a decomposition of the whole text under the grammar |
| Parser.MatchMoneyComplete | src/lib.rs:64-80 | any decomposition of the whole text is exactly the one the matcher returns, so there is at most one |
| Parser.PrefixCaptured | src/lib.rs:82-92 | in front of a number, the sign and symbol groups capture exactly the `-` and the symbol that are there |
| Parser.DenotesUnique | src/lib.rs:58-103 | a text stands for at most one amount |
| Parser.ParseI64 | src/lib.rs:99 | `parse::<i64>` on the built digit string succeeds exactly for a non-empty all-digit string whose value fits in an `i64`, and returns that value |
| Parser.CoinDigitsAreDigits | src/lib.rs:93-94 | the string handed to `parse` is non-empty and all digits, so only the `i64` bound can make the parse fail |
| Parser.DenotesByMatch | src/lib.rs:67-102 | a text stands for an amount exactly when the matcher succeeds and the coin digits fit in an `i64`; the amount's symbol is the captured symbol and its value the signed coin count |
| Parser.FromString | src/lib.rs:58-103 | `from_string(s)` is `Some(c)` exactly when the trimmed text stands for `c`, and `None` when it stands for nothing |
| Parser.Decompose | src/lib.rs:72-97 | a parsed amount comes from the matcher's captures: the minus and symbol at the front of the text, and the body and cents after them |
| Parser.SplitText | src/lib.rs:64 | a decomposed text is its prefix followed by its number |
| Parser.CapturedMinus | src/lib.rs:82-92 | the captured minus sign is whether the text starts with `-`, and the captured symbol is the character after it when that is a symbol |
| Parser.PrependMinus | src/lib.rs:64 | putting `-` in front of a decomposition without one gives a negative decomposition of the same number |
| Parser.StripMinus | src/lib.rs:64 | taking the `-` off a negative decomposition gives a non-negative one of the same number |
| Parser.DenotesIntro | src/lib.rs:93-102 | a decomposition whose coin digits fit in an `i64` makes the text stand for the signed coin count under the captured symbol |
| Parser.NegateParsed | src/lib.rs:82-84 | if `t` (not starting with `-`) parses to `(s, v)`, then `"-" + t` parses to `(s, -v)` |
| Parser.UnnegateParsed | src/lib.rs:82-84 | if `"-" + t` (with `t` not starting with `-`) parses to `(s, v)`, then `t` parses to `(s, -v)` |
| Parser.NegateText | src/lib.rs:82-84 | a non-negative decomposition of `t` makes `"-" + t` stand for the negated coin count |
| Parser.UnnegateText | src/lib.rs:82-84 | a negative decomposition of `"-" + t` makes `t` stand for the positive coin count |
| Parser.NegativeSign | src/lib.rs:82-84 | for `t` not starting with `-`: `t` stands for `(s, v)` if and only if `"-" + t` stands for `(s, -v)` |
| Parser.SymbolPosition | src/lib.rs:86-92 | the symbol of a parsed amount is the character right after the optional `-` when that is a currency symbol, and `None` otherwise |
| Parser.PrefixChars | src/lib.rs:64 | the sign and symbol in front of the number are neither digits nor separators |
| Parser.NumberShape | src/lib.rs:64 | a number holds only digits and separators and starts and ends with a digit |
| Parser.DenotesShape | src/lib.rs:64-80 | a text that stands for an amount is its prefix followed by digits and separators only, starting and ending with a digit |
| Parser.TextShape | src/lib.rs:64-80 | the same shape, stated for a decomposition |
| Parser.TrailingTextRejected | src/lib.rs:77-80 | text that ends in anything but a digit stands for nothing: a parse never stops before trailing text |
| Parser.LeadingTextRejected | src/lib.rs:77-80 | text that starts with anything but `-`, a currency symbol or a digit stands for nothing: a parse never skips leading text |
| Parser.NumberCents | src/lib.rs:64 | a number has a cents capture exactly when its third character from the end is a separator; the two characters after it are then the cents |
| Parser.HasCentsAfter | src/lib.rs:64 | characters that are not separators, put in front of a text, do not change whether it ends with cents |
| Parser.CentsAtEnd | src/lib.rs:64 | a decomposed text has a cents capture exactly when the third character from the end of the whole text is a separator |
| Parser.NumberDigits | src/lib.rs:93-94 | the digits of a number are those of its body followed by its cents |
| Parser.TextDigits | src/lib.rs:93-94 | the digits of a decomposed text are those of the body followed by the cents |
| Parser.CoinValue | src/lib.rs:93-94 | the coin count of a decomposition is the value of the text's digits, times 100 when there are no cents |
| Parser.DenotesValue | src/lib.rs:93-102 | the value of a parsed amount is all the text's digits read as one number, times 100 without cents, negated after a leading `-` |
| Parser.DenotesBound | src/lib.rs:99-102 | a parsed value lies in `[-(2^63-1), 2^63-1]`, so `i64::MIN` is never produced |
| Parser.DenotedIsTrimmed | src/lib.rs:62-80 | a text that stands for an amount is unchanged by `trim`, so `from_string` reads it as it is |
| ParseExamples.Reads | src/lib.rs:58-103 | a text spelled as prefix and number, with the expected coin digits and value, stands for the expected amount |
| ParseExamples.UngroupedBody | src/lib.rs:64 | `1234.567` is not a body: a group has at most three digits |
| ParseExamples.UngroupedNumber | src/lib.rs:64 | `1234.567` is not a number, with cents or without |
| ParseExamples.UngroupedPrefix | src/lib.rs:64 | `1234.567` has neither sign nor symbol |
| ParseExamples.UngroupedMatch | src/lib.rs:64-80 | the matcher rejects `1234.567` |
| ParseExamples.UngroupedRejected | src/lib.rs:64-80 | `1234.567` stands for no amount |
| ParseExamples.OneCentDigitMatch | src/lib.rs:64-80 | the matcher rejects `$4.3` |
| ParseExamples.OneCentDigitRejected | src/lib.rs:64-80 | `$4.3` stands for no amount: cents take exactly two digits |
| ParseExamples.DollarsAndCents | src/lib.rs:52 | `$4.32` stands for `(Some('$'), 432)` |
| ParseExamples.NegativeDollarsAndCents | src/lib.rs:53 | `-$4.32` stands for `(Some('$'), -432)` |
| ParseExamples.NoSymbol | src/lib.rs:54 | `424.44` stands for `(None, 42444)` |
| ParseExamples.CommaCents | src/lib.rs:55 | `£12,00` stands for `(Some('£'), 1200)` |
| ParseExamples.WholeYen | src/lib.rs:56 | `¥12` stands for `(Some('¥'), 1200)` |
| ParseExamples.Dollars | tests/lib.rs:71-73 | `$12.10` stands for `(Some('$'), 1210)` |
| ParseExamples.WholeDollars | tests/lib.rs:75-77 | `$12` stands for `(Some('$'), 1200)` |
| ParseExamples.GroupedThousands | tests/lib.rs:79-81 | `12,000.99` stands for `(None, 1200099)` |
| ParseExamples.EuropeanGrouped | tests/lib.rs:83-85 | `£12.000,99` stands for `(Some('£'), 1200099)` |
| ParseExamples.NegativeDollars | tests/lib.rs:88-91 | `-$12.10` stands for `(Some('$'), -1210)` |
| ParseExamples.NegativeWholeDollars | tests/lib.rs:93-95 | `-$12` stands for `(Some('$'), -1200)` |
| ParseExamples.NegativeGroupedThousands | tests/lib.rs:97-99 | `-12,000.99` stands for `(None, -1200099)` |
| ParseExamples.NegativeEuropeanGrouped | tests/lib.rs:101-103 | `-£12.000,99` stands for `(Some('£'), -1200099)` |
| ParseExamples.ZeroEuros | tests/lib.rs:106-108 | `€0` stands for `(Some('€'), 0)` |
| ParseExamples.Zeros | tests/lib.rs:110-112 | `000` stands for `(None, 0)` |
| ParseExamples.EuroCents | tests/lib.rs:114-116 | `€0,50` stands for `(Some('€'), 50)` |
| ParseExamples.NegativeEuroCents | tests/lib.rs:118-120 | `-€0.50` stands for `(Some('€'), -50)` |
| ParseExamples.ParseDollarsAndCents | src/lib.rs:52 | `from_string("$4.32")` is `Some(Currency(Some('$'), 432))` |
| ParseExamples.ParseNegativeDollarsAndCents | src/lib.rs:53 | `from_string("-$4.32")` is `Some(Currency(Some('$'), -432))` |
| ParseExamples.ParseNoSymbol | src/lib.rs:54 | `from_string("424.44")` is `Some(Currency(None, 42444))` |
| ParseExamples.ParseCommaCents | src/lib.rs:55 | `from_string("£12,00")` is `Some(Currency(Some('£'), 1200))` |
| ParseExamples.ParseWholeYen | src/lib.rs:56 | `from_string("¥12")` is `Some(Currency(Some('¥'), 1200))` |
| ParseExamples.ParseDollars | tests/lib.rs:71-73 | `from_string("$12.10")` is `Some(Currency(Some('$'), 1210))` |
| ParseExamples.ParseWholeDollars | tests/lib.rs:75-77 | `from_string("$12")` is `Some(Currency(Some('$'), 1200))` |
| ParseExamples.ParseGroupedThousands | tests/lib.rs:79-81 | `from_string("12,000.99")` is `Some(Currency(None, 1200099))` |
| ParseExamples.ParseEuropeanGrouped | tests/lib.rs:83-85 | `from_string("£12.000,99")` is `Some(Currency(Some('£'), 1200099))` |
| ParseExamples.ParseNegativeDollars | tests/lib.rs:88-91 | `from_string("-$12.10")` is `Some(Currency(Some('$'), -1210))` |
| ParseExamples.ParseNegativeWholeDollars | tests/lib.rs:93-95 | `from_string("-$12")` is `Some(Currency(Some('$'), -1200))` |
| ParseExamples.ParseNegativeGroupedThousands | tests/lib.rs:97-99 | `from_string("-12,000.99")` is `Some(Currency(None, -1200099))` |
| ParseExamples.ParseNegativeEuropeanGrouped | tests/lib.rs:101-103 | `from_string("-£12.000,99")` is `Some(Currency(Some('£'), -1200099))` |
| ParseExamples.ParseZeroEuros | tests/lib.rs:106-108 | `from_string("€0")` is `Some(Currency(Some('€'), 0))` |
| ParseExamples.ParseZeros | tests/lib.rs:110-112 | `from_string("000")` is `Some(Currency(None, 0))` |
| ParseExamples.ParseEuroCents | tests/lib.rs:114-116 | `from_string("€0,50")` is `Some(Currency(Some('€'), 50))` |
| ParseExamples.ParseNegativeEuroCents | tests/lib.rs:118-120 | `from_string("-€0.50")` is `Some(Currency(Some('€'), -50))` |
| ParseExamples.ParseUngrouped | src/lib.rs:58-103 | `from_string("1234.567")` is `None`: a group has at most three digits |
| ParseExamples.ParseOneCentDigit | src/lib.rs:58-103 | `from_string("$4.3")` is `None`: cents take exactly two digits |
| Arithmetic.Div | src/math.rs:90-97 | `c / n` succeeds exactly when `n` is not zero and the division is not `i64::MIN / -1` |
| Arithmetic.DivRoundsTowardZero | src/math.rs:94-96 | a successful division keeps the symbol and rounds toward zero: the remainder is smaller than the divisor in magnitude and has the dividend's sign, and the quotient is no larger than the dividend in magnitude |
| Arithmetic.ProductThenTruncDiv | src/math.rs:95 | truncating division of `x * d` by a non-zero `d` gives `x` back |
| Arithmetic.TruncDivRemainder | src/math.rs:95 | truncating division leaves a remainder smaller than the divisor in magnitude, with the dividend's sign |
| Arithmetic.TruncDivTimes | src/math.rs:95 | quotient times divisor is the dividend's sign on the largest multiple of the divisor's magnitude below the dividend's magnitude |
| Arithmetic.TruncDivMagnitude | src/math.rs:95 | the quotient's magnitude is that of the dividend divided by that of the divisor, and its sign is the product of the operands' signs |
| Arithmetic.DivFits | src/math.rs:95 | every `i64` quotient except `i64::MIN / -1` fits in an `i64` |
| Arithmetic.TruncDivExamples | src/math.rs:95 | `-7 / 2 == -3`, `7 / -2 == -3`, `-7 / -2 == 3`, where floored division would give `-4` |
| Arithmetic.Add | src/math.rs:14-22 | `a + b` succeeds exactly when the left symbol is absent or equals the right one; it then has the right operand's symbol and the sum of the values, and otherwise panics naming both symbols |
| Arithmetic.Sub | src/math.rs:34-40 | `a - b` succeeds exactly when the symbols are equal, giving the common symbol and the difference; a missing left symbol is no wildcard and panics |
| Arithmetic.Mul | src/math.rs:46-53 | `c * n` keeps the symbol and multiplies the coin count by `n`; dividing it by a non-zero `n` gives `c` back |
| Arithmetic.MulLeft | src/math.rs:59-66 | `n * c` is `c * n`: the multiplication is commutative |
| Arithmetic.DefaultLeftIdentity | src/math.rs:15-16 | `default() + c == c` for every `c` |
| Arithmetic.DefaultOnTheRight | src/math.rs:15-21 | `c + default()` is `c` when `c` has no symbol, and panics when it has one |
| Arithmetic.AddCommutes | src/math.rs:15-16 | amounts of one currency add in either order |
| Arithmetic.AddThenSub | src/math.rs:14-40 | `(a + b) - b == a` for amounts of one currency |
| Arithmetic.SubThenAdd | src/math.rs:14-40 | `(a - b) + b == a` for amounts of one currency |
| Arithmetic.AddAssociates | src/math.rs:14-22 | when `(a + b) + c` succeeds, `a + (b + c)` succeeds with the same result |
| Arithmetic.AddRegroupingCanPanic | src/math.rs:15-21 | the converse fails: `$1 + (none + $1)` succeeds while `($1 + none) + $1` panics |
| Arithmetic.ArithmeticExamples | tests/lib.rs:57-66 | the sums, differences, products and quotient of `$12.06` and `$11.43` that the tests expect, and `default() + €0.01 == €0.01` (tests/lib.rs:140-143) |
| Summation.Fold | src/sum.rs:10 | the fold succeeds exactly when each amount can be added to the one before it; it then holds the start value plus the total, under the last amount's symbol |
| Summation.FoldStepFits | src/sum.rs:10 | after one step of the fold, the remaining running totals still fit in an `i64` |
| Summation.ChainedCons | src/sum.rs:10 | a run of addable amounts is its first pair followed by the run from the second amount |
| Summation.ChainedSameHead | src/sum.rs:10 | only symbols decide whether a run of amounts is addable |
| Summation.SumEmpty | src/sum.rs:10 | the sum of nothing is `(None, 0)` |
| Summation.Sum | src/sum.rs:6-11 | a sum succeeds exactly when each amount can be added to the one before it; it is then the total of the values under the last amount's symbol, and `default()` for no amounts |
| Summation.SumOneCurrency | src/sum.rs:19-30 | amounts that all carry symbol `s` sum to the total of their values under `s` |
| Summation.SumPanicsOnMismatch | src/sum.rs:10 | an amount with a symbol followed by one with another symbol, or with none, makes the sum panic |
| Summation.FoldAppend | src/sum.rs:10 | the fold runs left to right: adding an amount at the end adds it to the fold so far, and a fold that panicked stays panicked |
| Summation.TotalBounded | src/sum.rs:19-30 | a total of amounts each in `[0, bound]` lies in `[0, count * bound]` |
| Summation.PoundsExample | src/sum.rs:19-30 | four pound amounts sum to `(Some('£'), 1111)` |

## Left out

- `Mul<f64>` for `Currency` and `Mul<Currency>` for `f64` (src/math.rs:68-85) are left out: their result depends on floating-point rounding.
- `Display`, `LowerExp` (src/display.rs) and the JSON encoding (src/tojson.rs) are left out. They format through `f32` and an external serializer.
- The programs under examples/ are left out. They print, and they use `From`, `prefix()` and `postfix()`, whose definitions are not part of this model.
- The regex engine (src/lib.rs:63-65) is not modelled as an engine. Three assumptions replace it, and none of them is proved:
  - The pattern's grammar plus a whole-text requirement stands in for the engine's first match compared against the trimmed text (src/lib.rs:67-80). With leftmost-first matching, the leading `\b` and the trailing `\b` agree with this whenever the whole text matches.
  - `\d` is restricted to ASCII digits. The source's `\d` also matches other Unicode decimal digits, but `parse::<i64>` then fails, so both give `None`.
  - `\p{Sc}` is the Unicode 15.0 Currency_Symbol table.
- `Text.IsWhitespace` is the Unicode White_Space list that `char::is_whitespace` uses. A later Unicode version could differ.
- `Arithmetic.Add`, `Arithmetic.Sub`, `Arithmetic.Mul`, `Arithmetic.MulLeft`: Rust's `i64` overflow of `+`, `-` and `*` is excluded by a precondition. The source panics in debug builds and wraps in release builds.
- `Summation.Sum`, `Summation.Fold`: `i64` overflow of a running total is excluded by a precondition. It requires every running total to fit, including those after the point where the fold panics on a symbol mismatch.
- `Parser.FromString` reads its input as a sequence of Unicode scalar values. The byte-level `&str` representation is not modelled.
