/**
 * `Sum for Currency` (src/sum.rs): `iter.fold(Currency::default(), |acc, x| acc + x)`,
 * a left fold of `+` that starts from the symbol-less zero and stops at the
 * first panic.
 */
module Summation {
  import opened Wrappers
  import opened Money
  import opened Arithmetic

  /** The sum of the values, as an unbounded integer. */
  function Total(xs: seq<Currency>): int
  {
    if xs == [] then 0 else xs[0].value + Total(xs[1..])
  }

  /**
   * Every running total of a fold that starts at `start` fits in an `i64`,
   * so no addition of the fold overflows.
   */
  predicate RunningTotalsFit(start: int, xs: seq<Currency>)
  {
    forall i | 0 <= i <= |xs| :: InI64(start + Total(xs[..i]))
  }

  /**
   * Each amount can be added to the one before it: the symbol of a running
   * total is that of the last amount added, so this is the condition for
   * the fold not to panic.
   */
  predicate Chained(ys: seq<Currency>)
  {
    forall i | 0 < i < |ys| :: Linked(ys, i)
  }

  /** The amount at `i` can be added to the one before it. */
  predicate Linked(ys: seq<Currency>, i: int)
    requires 0 < i < |ys|
  {
    Joinable(ys[i - 1].symbol, ys[i].symbol)
  }

  /** `xs.iter().fold(acc, |acc, x| acc + x)`. */
  function Fold(acc: Currency, xs: seq<Currency>): (r: Outcome)
    requires RunningTotalsFit(acc.value, xs)
    ensures r.Ok? <==> Chained([acc] + xs)
    ensures r.Ok? ==> r.value.value == acc.value + Total(xs)
    ensures r.Ok? ==> r.value.symbol == ([acc] + xs)[|xs|].symbol
    decreases |xs|
  {
    if xs == [] then
      assert [acc] + xs == [acc];
      Ok(acc)
    else
      FoldStepFits(acc.value, xs);
      ChainedCons(acc, xs);
      match Add(acc, xs[0])
      case Ok(next) =>
        ChainedSameHead(next, xs);
        assert next.value == acc.value + xs[0].value;
        Fold(next, xs[1..])
      case Panic(reason) =>
        Panic(reason)
  }

  /**
   * `Sum::sum`, the fold from `Currency::default()`. It succeeds exactly when
   * every amount can be added to the one before it; it is then the total of
   * the values, under the last amount's symbol (`default()` for no amounts).
   */
  function Sum(xs: seq<Currency>): (r: Outcome)
    requires RunningTotalsFit(0, xs)
    ensures r.Ok? <==> Chained(xs)
    ensures r.Ok? ==> r.value.value == Total(xs)
    ensures r.Ok? && xs != [] ==> r.value.symbol == xs[|xs| - 1].symbol
    ensures xs == [] ==> r == Ok(Default())
  {
    if xs == [] then
      assert [Default()] + xs == [Default()];
      Fold(Default(), xs)
    else
      ChainedCons(Default(), xs);
      assert ([Default()] + xs)[|xs|] == xs[|xs| - 1];
      Fold(Default(), xs)
  }

  /** The running totals after the first step of a fold are the later running totals of the fold. */
  lemma FoldStepFits(start: int, xs: seq<Currency>)
    requires xs != [] && RunningTotalsFit(start, xs)
    ensures InI64(start + xs[0].value)
    ensures RunningTotalsFit(start + xs[0].value, xs[1..])
  {
    assert xs[..1] == [xs[0]];
    assert Total(xs[..1]) == xs[0].value + Total(xs[..1][1..]);
    forall i | 0 <= i <= |xs| - 1
      ensures InI64(start + xs[0].value + Total(xs[1..][..i]))
    {
      assert xs[..i + 1][1..] == xs[1..][..i];
      assert InI64(start + Total(xs[..i + 1]));
    }
  }

  /** A chain is its first link followed by the chain that starts at the second element. */
  lemma ChainedCons(acc: Currency, xs: seq<Currency>)
    requires xs != []
    ensures Chained([acc] + xs) <==> Joinable(acc.symbol, xs[0].symbol) && Chained(xs)
  {
    var ys := [acc] + xs;
    assert Linked(ys, 1) == Joinable(acc.symbol, xs[0].symbol);
    assert forall i | 1 < i < |ys| :: Linked(ys, i) == Linked(xs, i - 1);
    if Chained(ys) {
      forall i | 0 < i < |xs| ensures Linked(xs, i) {
        assert Linked(ys, i + 1);
      }
    }
  }

  /** Only the symbols take part in a chain. */
  lemma ChainedSameHead(a: Currency, xs: seq<Currency>)
    requires xs != [] && a.symbol == xs[0].symbol
    ensures Chained([a] + xs[1..]) <==> Chained(xs)
  {
    var ys := [a] + xs[1..];
    assert forall i | 0 < i < |ys| :: Linked(ys, i) == Linked(xs, i);
  }

  // ---------------------------------------------------------------------------
  // What a sum is
  // ---------------------------------------------------------------------------

  /** The sum of nothing is `default()`, `(None, 0)`. */
  lemma SumEmpty()
    ensures Sum([]) == Ok(Currency(None, 0))
  {
  }

  /** Amounts that all carry the symbol `s` sum to the total under `s`. */
  lemma SumOneCurrency(xs: seq<Currency>, s: char)
    requires xs != [] && RunningTotalsFit(0, xs)
    requires forall i | 0 <= i < |xs| :: xs[i].symbol == Some(s)
    ensures Sum(xs).Ok? && Sum(xs).value.symbol == Some(s) && Sum(xs).value.value == Total(xs)
  {
  }

  /**
   * An amount with a symbol followed by an amount with another symbol, or
   * with none, makes the sum panic, wherever the pair sits.
   */
  lemma SumPanicsOnMismatch(xs: seq<Currency>, i: nat)
    requires RunningTotalsFit(0, xs)
    requires i + 1 < |xs| && xs[i].symbol.Some? && xs[i + 1].symbol != xs[i].symbol
    ensures Sum(xs).Panic?
  {
    assert !Linked(xs, i + 1);
  }

  /** Extending a sequence adds its new last amount to the sum so far: the fold runs left to right. */
  lemma {:induction false} FoldAppend(acc: Currency, xs: seq<Currency>, x: Currency)
    requires RunningTotalsFit(acc.value, xs + [x])
    ensures RunningTotalsFit(acc.value, xs)
    ensures Fold(acc, xs).Ok? ==>
      var s := Fold(acc, xs).value;
      InI64(s.value + x.value) && Fold(acc, xs + [x]) == Add(s, x)
    ensures Fold(acc, xs).Panic? ==> Fold(acc, xs + [x]) == Fold(acc, xs)
    decreases |xs|
  {
    assert RunningTotalsFit(acc.value, xs) by {
      forall i | 0 <= i <= |xs| ensures InI64(acc.value + Total(xs[..i])) {
        assert (xs + [x])[..i] == xs[..i];
      }
    }
    if xs == [] {
      assert xs + [x] == [x] && [x][..1] == [x] && [x][1..] == [];
      assert InI64(acc.value + Total([x]));
    } else {
      var ys := xs + [x];
      assert ys[0] == xs[0] && ys[1..] == xs[1..] + [x];
      FoldStepFits(acc.value, ys);
      match Add(acc, xs[0])
      case Ok(next) =>
        FoldAppend(next, xs[1..], x);
      case Panic(_) =>
    }
  }

  /** The crate's test: four pound amounts sum to £11.11 (src/sum.rs:19-30). */
  lemma PoundsExample()
    ensures var list := [Currency(Some('£'), 1000), Currency(Some('£'), 100), Currency(Some('£'), 10), Currency(Some('£'), 1)];
      RunningTotalsFit(0, list) && Sum(list) == Ok(Currency(Some('£'), 1111))
  {
    var list := [Currency(Some('£'), 1000), Currency(Some('£'), 100), Currency(Some('£'), 10), Currency(Some('£'), 1)];
    assert Total(list) == 1111;
    assert RunningTotalsFit(0, list) by {
      forall i | 0 <= i <= |list| ensures InI64(Total(list[..i])) {
        TotalBounded(list[..i], 1000);
      }
    }
    SumOneCurrency(list, '£');
  }

  /** A total of amounts each between 0 and `bound` lies between 0 and `bound` times their number. */
  lemma {:induction false} TotalBounded(xs: seq<Currency>, bound: nat)
    requires forall i | 0 <= i < |xs| :: 0 <= xs[i].value <= bound
    ensures 0 <= Total(xs) <= |xs| * bound
  {
    if xs != [] {
      TotalBounded(xs[1..], bound);
    }
  }
}
