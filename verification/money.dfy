/**
 * The value model of src/lib.rs: `Currency(Option<char>, i64)`, an optional
 * currency symbol paired with a signed count of minor units (100 of them make
 * one unit of the currency), its constructors and the ordering Rust derives
 * for it.
 */
module Money {
  import opened Wrappers

  const I64_MIN: int := -0x8000_0000_0000_0000
  const I64_MAX: int := 0x7FFF_FFFF_FFFF_FFFF

  /** Rust's `i64`. */
  type I64 = x: int | InI64(x)

  predicate InI64(x: int)
  {
    I64_MIN <= x <= I64_MAX
  }

  /** `Currency(symbol, value)`; equality is structural, as the derived `PartialEq`. */
  datatype Currency = Currency(symbol: Option<char>, value: I64)

  /** `Currency::new()`. */
  function New(): (c: Currency)
    ensures c == Default()
  {
    Currency(None, 0)
  }

  /** `Default::default()`: no symbol, no coins. */
  function Default(): (c: Currency)
    ensures c.symbol.None? && c.value == 0
  {
    Currency(None, 0)
  }

  /** The ordering Rust's derived `PartialOrd` gives a result of `partial_cmp`. */
  datatype Ordering = Less | Equal | Greater

  /** Derived `PartialOrd` for `Option<char>`: `None` first, then by code point. */
  function CompareSymbols(a: Option<char>, b: Option<char>): Ordering
  {
    match (a, b)
    case (None, None) => Equal
    case (None, Some(_)) => Less
    case (Some(_), None) => Greater
    case (Some(x), Some(y)) => if x < y then Less else if x == y then Equal else Greater
  }

  function CompareInts(x: int, y: int): Ordering
  {
    if x < y then Less else if x == y then Equal else Greater
  }

  /**
   * Derived `PartialOrd` for the tuple struct: field by field, the symbol
   * first and the value only when the symbols are equal.
   */
  function Compare(a: Currency, b: Currency): (r: Ordering)
    ensures r == Equal <==> a == b
  {
    match CompareSymbols(a.symbol, b.symbol)
    case Equal => CompareInts(a.value, b.value)
    case other => other
  }

  /** `a < b` under the derived ordering. */
  predicate Below(a: Currency, b: Currency)
  {
    Compare(a, b) == Less
  }

  /** Swapping the operands swaps `Less` and `Greater`. */
  lemma CompareAntisymmetric(a: Currency, b: Currency)
    ensures Compare(a, b) == Less <==> Compare(b, a) == Greater
  {
  }

  /** `<` is transitive. */
  lemma BelowTransitive(a: Currency, b: Currency, c: Currency)
    requires Below(a, b) && Below(b, c)
    ensures Below(a, c)
  {
  }

  /** The ordering is total: exactly one of `a < b`, `a == b`, `b < a`. */
  lemma BelowTrichotomy(a: Currency, b: Currency)
    ensures Below(a, b) || a == b || Below(b, a)
    ensures !(Below(a, b) && Below(b, a)) && !Below(a, a)
  {
  }

  /** Amounts of one currency compare as their numbers of coins. */
  lemma SameSymbolComparesValues(a: Currency, b: Currency)
    requires a.symbol == b.symbol
    ensures Below(a, b) <==> a.value < b.value
    ensures Compare(a, b) == Equal <==> a.value == b.value
  {
  }

  /** Amounts of different currencies compare by symbol whatever their values. */
  lemma SymbolDecidesFirst(a: Currency, b: Currency)
    requires a.symbol != b.symbol
    ensures Compare(a, b) == CompareSymbols(a.symbol, b.symbol) != Equal
  {
  }

  /** The orderings the crate's tests expect of four dollar amounts. */
  lemma OrderExamples()
    ensures var a, b, c, d := Currency(Some('$'), 1210), Currency(Some('$'), 1211),
                              Currency(Some('$'), 1311), Currency(Some('$'), 1210);
            Compare(a, b) == Less && Compare(a, c) == Less && Compare(a, d) == Equal
            && Compare(c, a) == Greater && a == d && a != c
  {
  }
}
