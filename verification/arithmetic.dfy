/**
 * The operators of src/math.rs on `Currency`: `+` and `-` between amounts,
 * `*` by an `i64` on either side and `/` by an `i64`.
 *
 * A `panic!` of the source is the `Panic` outcome, with the reason it
 * reports. Rust's `i64` arithmetic overflows (a panic in debug builds,
 * wrap-around in release builds) are excluded by preconditions; the one
 * overflow that panics in every build, `i64::MIN / -1`, is an outcome.
 */
module Arithmetic {
  import opened Wrappers
  import opened Money

  /** Why an operator panicked. */
  datatype PanicReason =
    | AddMismatch(lhs: Option<char>, rhs: Option<char>)
    | SubMismatch
    | DivideByZero
    | DivideOverflow

  /** What an operator yields: an amount, or a panic. */
  datatype Outcome = Ok(value: Currency) | Panic(reason: PanicReason)

  /**
   * The symbol test of `+`: the symbols are equal, or the left operand has
   * none. Only the left operand is a wildcard.
   */
  predicate Joinable(lhs: Option<char>, rhs: Option<char>)
  {
    lhs == rhs || lhs.None?
  }

  /**
   * `a + b`: succeeds exactly when the left symbol is missing or equal to the
   * right one, and then carries the right operand's symbol and the sum of the
   * values; otherwise it panics naming both symbols.
   */
  function Add(a: Currency, b: Currency): (r: Outcome)
    requires Joinable(a.symbol, b.symbol) ==> InI64(a.value + b.value)
    ensures r.Ok? <==> a.symbol.None? || a.symbol == b.symbol
    ensures r.Ok? ==> r.value.symbol == b.symbol && r.value.value == a.value + b.value
    ensures a.symbol.Some? && a.symbol != b.symbol ==> r == Panic(AddMismatch(a.symbol, b.symbol))
  {
    if a.symbol == b.symbol || a.symbol.None? then Ok(Currency(b.symbol, a.value + b.value))
    else Panic(AddMismatch(a.symbol, b.symbol))
  }

  /**
   * `a - b`: succeeds exactly when the symbols are equal, a missing symbol
   * being no wildcard, and then carries the common symbol and the difference
   * of the values.
   */
  function Sub(a: Currency, b: Currency): (r: Outcome)
    requires a.symbol == b.symbol ==> InI64(a.value - b.value)
    ensures r.Ok? <==> a.symbol == b.symbol
    ensures r.Ok? ==> r.value == Currency(a.symbol, a.value - b.value)
    ensures a.symbol.None? && b.symbol.Some? ==> r == Panic(SubMismatch)
  {
    if a.symbol == b.symbol then Ok(Currency(a.symbol, a.value - b.value))
    else Panic(SubMismatch)
  }

  /**
   * `c * n` for an `i64` `n`: keeps the symbol, and dividing the product by a
   * non-zero `n` gives `c` back.
   */
  function Mul(c: Currency, n: I64): (r: Currency)
    requires InI64(c.value * n)
    ensures r.symbol == c.symbol && r.value == n * c.value
    ensures n != 0 ==> Div(r, n) == Ok(c)
  {
    ProductThenTruncDiv(c.value, n);
    Currency(c.symbol, c.value * n)
  }

  /** `n * c` for an `i64` `n`: the same amount as `c * n`. */
  function MulLeft(n: I64, c: Currency): (r: Currency)
    requires InI64(c.value * n)
    ensures r == Mul(c, n)
  {
    Currency(c.symbol, c.value * n)
  }

  function Abs(x: int): nat
  {
    if x < 0 then -x else x
  }

  /**
   * Rust's `/` on integers: the quotient rounded toward zero. (Dafny's `/`
   * is Euclidean and rounds `-7 / 2` to `-4`; Rust gives `-3`.)
   */
  function TruncDiv(x: int, n: int): int
    requires n != 0
  {
    if (x >= 0) == (n > 0) then Abs(x) / Abs(n) else -(Abs(x) / Abs(n))
  }

  /** `c / n` for an `i64` `n`: division by zero and `i64::MIN / -1` panic. */
  function Div(c: Currency, n: I64): (r: Outcome)
    ensures r.Ok? <==> n != 0 && !(c.value == I64_MIN && n == -1)
  {
    if n == 0 then Panic(DivideByZero)
    else if c.value == I64_MIN && n == -1 then Panic(DivideOverflow)
    else
      DivFits(c.value, n);
      Ok(Currency(c.symbol, TruncDiv(c.value, n)))
  }

  // ---------------------------------------------------------------------------
  // Truncating division
  // ---------------------------------------------------------------------------

  /** Euclidean division of naturals, as Dafny defines it. */
  lemma NaturalDivision(a: int, b: int)
    requires a >= 0 && b > 0
    ensures a == (a / b) * b + a % b && 0 <= a % b < b && a / b >= 0
  {
  }

  /** Multiplying by a natural keeps the order. */
  lemma {:induction false} MulMonotone(k: nat, lo: int, hi: int)
    requires lo <= hi
    ensures k * lo <= k * hi
    decreases k
  {
    if k > 0 {
      MulMonotone(k - 1, lo, hi);
      assert k * lo == (k - 1) * lo + lo;
      assert k * hi == (k - 1) * hi + hi;
    }
  }

  /**
   * The defining property of truncating division: the remainder
   * `x - TruncDiv(x, n) * n` is smaller than the divisor in magnitude and is
   * zero or has the dividend's sign.
   */
  lemma TruncDivRemainder(x: int, n: int)
    requires n != 0
    ensures var r := x - TruncDiv(x, n) * n;
      && Abs(r) < Abs(n)
      && (r == 0 || (r > 0 <==> x > 0))
  {
    var a: int, b: int := Abs(x), Abs(n);
    NaturalDivision(a, b);
    TruncDivTimes(x, n);
  }

  /** The product of quotient and divisor: the dividend's sign on the multiple of `|n|` that Euclidean division finds. */
  lemma TruncDivTimes(x: int, n: int)
    requires n != 0
    ensures TruncDiv(x, n) * n == if x >= 0 then (Abs(x) / Abs(n)) * Abs(n) else -((Abs(x) / Abs(n)) * Abs(n))
  {
    var b: int := Abs(n);
    if n > 0 {
      assert n == b;
    } else {
      assert n == -b;
      assert TruncDiv(x, n) * n == -TruncDiv(x, n) * b;
    }
  }

  /**
   * The magnitude of the quotient is that of Euclidean division of the
   * magnitudes, never more than the dividend's; a nonzero quotient is
   * positive exactly when the operands have the same sign.
   */
  lemma TruncDivMagnitude(x: int, n: int)
    requires n != 0
    ensures Abs(TruncDiv(x, n)) == Abs(x) / Abs(n) <= Abs(x)
    ensures TruncDiv(x, n) == 0 || (TruncDiv(x, n) > 0 <==> (x > 0) == (n > 0))
  {
    var a: int, b: int := Abs(x), Abs(n);
    NaturalDivision(a, b);
    var m := a / b;
    MulMonotone(m, 1, b);
  }

  /** Only `i64::MIN / -1` leaves the `i64` range. */
  lemma DivFits(x: I64, n: I64)
    requires n != 0 && !(x == I64_MIN && n == -1)
    ensures InI64(TruncDiv(x, n))
  {
    var a: int, b: int := Abs(x), Abs(n);
    NaturalDivision(a, b);
    var m := a / b;
    TruncDivMagnitude(x, n);
    assert InI64(x);
    if b >= 2 {
      MulMonotone(m, 2, b);
      assert m * 2 <= a;
    } else {
      assert n == 1 || n == -1;
    }
  }

  /** `(k * b) / b == k` for naturals. */
  lemma DivOfProduct(k: int, b: int)
    requires k >= 0 && b > 0
    ensures (k * b) / b == k
  {
    var p := k * b;
    NaturalDivision(p, b);
    var q, r := p / b, p % b;
    assert (k - q) * b == r;
    if q < k {
      MulMonotone(b, 1, k - q);
    }
  }

  /** Truncating division of a product by one of its factors gives the other factor back. */
  lemma ProductThenTruncDiv(x: int, d: int)
    ensures d != 0 ==> TruncDiv(x * d, d) == x
  {
    if d != 0 {
      var p := x * d;
      var a: int, b: int := Abs(x), Abs(d);
      if a > 0 {
        MulMonotone(a, 1, b);
      }
      if (x >= 0) == (d > 0) {
        assert p == a * b;
      } else {
        assert p == -(a * b);
      }
      DivOfProduct(a, b);
    }
  }

  // ---------------------------------------------------------------------------
  // Addition and subtraction
  // ---------------------------------------------------------------------------

  /** `default() + c == c`: the symbol-less zero is an identity on the left. */
  lemma DefaultLeftIdentity(c: Currency)
    ensures Add(Default(), c) == Ok(c)
  {
  }

  /**
   * On the right, the symbol-less zero is an identity only for amounts
   * without a symbol: `c + default()` panics when `c` has one.
   */
  lemma DefaultOnTheRight(c: Currency)
    ensures c.symbol.None? ==> Add(c, Default()) == Ok(c)
    ensures c.symbol.Some? ==> Add(c, Default()) == Panic(AddMismatch(c.symbol, None))
  {
  }

  /** Amounts of one currency add in either order. */
  lemma AddCommutes(a: Currency, b: Currency)
    requires a.symbol == b.symbol && InI64(a.value + b.value)
    ensures Add(a, b) == Add(b, a)
  {
  }

  /** `(a + b) - b == a` for amounts of one currency. */
  lemma AddThenSub(a: Currency, b: Currency)
    requires a.symbol == b.symbol && InI64(a.value + b.value)
    ensures Add(a, b).Ok? && Sub(Add(a, b).value, b) == Ok(a)
  {
  }

  /** `(a - b) + b == a` for amounts of one currency. */
  lemma SubThenAdd(a: Currency, b: Currency)
    requires a.symbol == b.symbol && InI64(a.value - b.value)
    ensures Sub(a, b).Ok? && Add(Sub(a, b).value, b) == Ok(a)
  {
  }

  /**
   * Adding left to right: when `(a + b) + c` succeeds, so does `b + c`, and
   * `a + (b + c)` gives the same amount.
   */
  lemma AddAssociates(a: Currency, b: Currency, c: Currency)
    requires InI64(a.value + b.value) && InI64(b.value + c.value) && InI64(a.value + b.value + c.value)
    requires Add(a, b).Ok? && Add(Add(a, b).value, c).Ok?
    ensures Add(b, c).Ok? && Add(a, Add(b, c).value) == Add(Add(a, b).value, c)
  {
  }

  /**
   * The converse fails: `$1 + (no symbol + $1)` succeeds, but
   * `($1 + no symbol) + $1` panics, because the wildcard only works on the left.
   */
  lemma AddRegroupingCanPanic()
    ensures var a, b, c := Currency(Some('$'), 1), Currency(None, 0), Currency(Some('$'), 1);
      && Add(b, c).Ok? && Add(a, Add(b, c).value) == Ok(Currency(Some('$'), 2))
      && Add(a, b).Panic?
  {
  }

  // ---------------------------------------------------------------------------
  // Multiplication and division
  // ---------------------------------------------------------------------------

  /** Division keeps the symbol and rounds the value toward zero. */
  lemma DivRoundsTowardZero(c: Currency, n: I64)
    requires n != 0 && !(c.value == I64_MIN && n == -1)
    ensures Div(c, n).Ok? && Div(c, n).value.symbol == c.symbol
    ensures var q := Div(c, n).value.value;
      && Abs(c.value - q * n) < Abs(n)
      && (c.value - q * n == 0 || (c.value - q * n > 0 <==> c.value > 0))
      && Abs(q) <= Abs(c.value)
  {
    TruncDivRemainder(c.value, n);
    TruncDivMagnitude(c.value, n);
  }

  /** Truncation, not flooring: `-7 / 2 == -3`, `7 / -2 == -3`, `-7 / -2 == 3`. */
  lemma TruncDivExamples()
    ensures TruncDiv(-7, 2) == -3 && TruncDiv(7, -2) == -3 && TruncDiv(-7, -2) == 3 && TruncDiv(7, 2) == 3
    ensures -7 / 2 == -4
  {
  }

  /** The crate's arithmetic tests (tests/lib.rs) and its add-to-default test. */
  lemma ArithmeticExamples()
    ensures var x, y := Currency(Some('$'), 1206), Currency(Some('$'), 1143);
      && Add(x, y) == Ok(Currency(Some('$'), 2349)) && Add(y, x) == Ok(Currency(Some('$'), 2349))
      && Sub(x, y) == Ok(Currency(Some('$'), 63)) && Sub(y, x) == Ok(Currency(Some('$'), -63))
      && Mul(x, 2) == Currency(Some('$'), 2412) && MulLeft(2, x) == Currency(Some('$'), 2412)
      && Div(x, 2) == Ok(Currency(Some('$'), 603))
    ensures Add(Default(), Currency(Some('€'), 1)) == Ok(Currency(Some('€'), 1))
  {
  }
}
