/** The Money value type of the wallet kata and the Currency descriptor it is
    tagged with. A Money is an immutable pair (amount, currency) whose amount
    is always rounded to the currency's precision; it is stored as a whole
    number of least units, so every amount is exact. */
module Currencies {
  import opened Rounding

  /** The closed set of currencies the kata defines. */
  datatype Currency = EUR | USD | XBT

  /** Digits after the point. USD has 3 by this kata's convention. */
  function Precision(c: Currency): nat
  {
    match c
    case EUR => 2
    case USD => 3
    case XBT => 8
  }

  /** The symbolic code a currency is known and reported by. */
  function Code(c: Currency): (s: string)
    ensures |s| == 3
  {
    match c
    case EUR => "EUR"
    case USD => "USD"
    case XBT => "XBT"
  }

  /** Two currencies are the same exactly when their codes are. */
  lemma CodeIdentifies(a: Currency, b: Currency)
    ensures Code(a) == Code(b) <==> a == b
  {
    if a != b {
      assert Code(a)[0] != Code(b)[0];
    }
  }

  /** `units` least units of `currency`, i.e. an amount of units * 10^-precision. */
  datatype Money = Money(currency: Currency, units: int)

  /** The decimal amount a Money stands for. */
  function Amount(m: Money): real
  {
    OnGrid(m.units, Precision(m.currency))
  }

  /** The rounding constructor of a currency (`stock`, `amount`, and the
      currency called as a function): rounds `raw` to the currency's precision,
      to the nearest value, a tie going up. */
  function Stock(c: Currency, raw: real): (m: Money)
    ensures m.currency == c
    ensures -HalfUnit(Precision(c)) < Amount(m) - raw <= HalfUnit(Precision(c))
  {
    RoundHalfUpError(raw, Precision(c));
    Money(c, RoundHalfUp(raw, Precision(c)))
  }

  /** The zero amount of a currency. */
  function Zero(c: Currency): (z: Money)
    ensures z.currency == c && Amount(z) == 0.0
  {
    Stock(c, 0.0)
  }

  /** No amount of the currency lies closer to `raw` than the rounded one;
      one equally close lies below it (the tie went up). */
  lemma StockIsNearest(c: Currency, raw: real, m: Money)
    requires m.currency == c
    ensures Abs(Amount(Stock(c, raw)) - raw) <= Abs(Amount(m) - raw)
    ensures Abs(Amount(Stock(c, raw)) - raw) == Abs(Amount(m) - raw) ==> Amount(m) <= Amount(Stock(c, raw))
  {
    var p := Precision(c);
    RoundIsNearest(raw, p, m.units);
    ScaleOrder(Amount(m), Amount(Stock(c, raw)), p);
  }

  /** Rounding an amount that is already at the currency's precision gives
      back the same Money; hence rounding twice is rounding once. */
  lemma StockIdempotent(m: Money)
    ensures Stock(m.currency, Amount(m)) == m
  {
    RoundOnGrid(m.units, Precision(m.currency));
  }

  /** Rounding twice is the same as rounding once. */
  lemma StockTwice(c: Currency, raw: real)
    ensures Stock(c, Amount(Stock(c, raw))) == Stock(c, raw)
  {
    StockIdempotent(Stock(c, raw));
  }

  /** One least unit of a currency is kept exactly; anything smaller than half
      of it, a tenth of it for instance, is rounded to zero. */
  lemma StockLeastUnit(c: Currency, raw: real)
    ensures Stock(c, OnGrid(1, Precision(c))) == Money(c, 1)
    ensures 0.0 <= raw < HalfUnit(Precision(c)) ==> Stock(c, raw) == Zero(c)
    ensures Stock(c, OnGrid(1, Precision(c)) / 10.0) == Zero(c)
  {
    var p := Precision(c);
    RoundOnGrid(1, p);
    RoundOnGrid(0, p);
    if 0.0 <= raw < HalfUnit(p) {
      RoundBelowHalfUnit(raw, p);
    }
    ScaleOrder(OnGrid(1, p) / 10.0, HalfUnit(p), p);
    RoundBelowHalfUnit(OnGrid(1, p) / 10.0, p);
  }

  /** A whole number n of a currency is n * 10^precision least units. */
  lemma StockWhole(c: Currency, n: int)
    ensures Stock(c, n as real) == Money(c, n * Pow10(Precision(c)))
  {
    OnGridWhole(n, Precision(c));
    RoundOnGrid(n * Pow10(Precision(c)), Precision(c));
  }

  /** Rounding never decreases when the raw amount grows. */
  lemma StockMonotone(c: Currency, x: real, y: real)
    requires x <= y
    ensures Amount(Stock(c, x)) <= Amount(Stock(c, y))
  {
    RoundMonotone(x, y, Precision(c));
    ScaleOrder(Amount(Stock(c, x)), Amount(Stock(c, y)), Precision(c));
  }

  /** Equality of Money as the kata observes it: same currency, same amount. */
  function Same(a: Money, b: Money): bool
  {
    a.currency == b.currency && Amount(a) == Amount(b)
  }

  /** Observed equality is value equality: Money of the same amount in
      different currencies are never equal. */
  lemma SameIsEquality(a: Money, b: Money)
    ensures Same(a, b) <==> a == b
  {
    if a.currency == b.currency {
      OnGridInjective(a.units, b.units, Precision(a.currency));
    }
  }

  /** The error `+` raises on Money of different currencies. */
  datatype Mismatch = Mismatch(expected: Currency, actual: Currency)

  /** What an operation gives back: a value, or the error it raised. */
  datatype Result<T> = Ok(value: T) | Err(error: Mismatch)

  /** The text of a mismatch error. It names the expected currency (the left
      operand's) and then the actual one (the right operand's). */
  function Message(e: Mismatch): (s: string)
    ensures |s| == 39
    ensures s[..28] == "Mismatch currency, expected "
    ensures s[28..31] == Code(e.expected) && s[31..36] == " got " && s[36..] == Code(e.actual)
  {
    "Mismatch currency, expected " + Code(e.expected) + " got " + Code(e.actual)
  }

  /** The message alone determines both currencies of a mismatch. */
  lemma MessageIdentifies(e1: Mismatch, e2: Mismatch)
    ensures Message(e1) == Message(e2) <==> e1 == e2
  {
    if Message(e1) == Message(e2) {
      CodeIdentifies(e1.expected, e2.expected);
      CodeIdentifies(e1.actual, e2.actual);
    }
  }

  /** `a + b`: defined for Money of the same currency, whose amounts it adds
      and re-rounds; otherwise a Mismatch(a's currency, b's currency). */
  function Add(a: Money, b: Money): (r: Result<Money>)
    ensures r.Ok? <==> a.currency == b.currency
    ensures r.Ok? ==> r.value.currency == a.currency && Amount(r.value) == Amount(a) + Amount(b)
    ensures r.Err? ==> r.error == Mismatch(a.currency, b.currency)
  {
    if a.currency != b.currency then
      Err(Mismatch(a.currency, b.currency))
    else
      var p := Precision(a.currency);
      OnGridAdd(a.units, b.units, p);
      RoundOnGrid(a.units + b.units, p);
      Ok(Stock(a.currency, Amount(a) + Amount(b)))
  }

  /** Same-currency addition is exact: the least units add up. */
  lemma AddUnits(a: Money, b: Money)
    requires a.currency == b.currency
    ensures Add(a, b) == Ok(Money(a.currency, a.units + b.units))
  {
    OnGridAdd(a.units, b.units, Precision(a.currency));
    OnGridInjective(Add(a, b).value.units, a.units + b.units, Precision(a.currency));
  }

  /** Whole amounts of one currency add as integers do, negative ones included:
      c(x) + c(y) == c(x + y). */
  lemma AddWhole(c: Currency, x: int, y: int)
    ensures Add(Stock(c, x as real), Stock(c, y as real)) == Ok(Stock(c, (x + y) as real))
  {
    var s := Pow10(Precision(c));
    StockWhole(c, x);
    StockWhole(c, y);
    StockWhole(c, x + y);
    AddUnits(Stock(c, x as real), Stock(c, y as real));
    assert x * s + y * s == (x + y) * s;
  }

  /** The zero of a currency is neutral on both sides. */
  lemma AddZero(m: Money)
    ensures Add(Zero(m.currency), m) == Ok(m)
    ensures Add(m, Zero(m.currency)) == Ok(m)
  {
    RoundOnGrid(0, Precision(m.currency));
    AddUnits(Zero(m.currency), m);
    AddUnits(m, Zero(m.currency));
  }

  /** Same-currency addition is commutative; across currencies both orders
      fail, each naming its own left operand as expected. */
  lemma AddCommutative(a: Money, b: Money)
    ensures Add(a, b).Ok? <==> Add(b, a).Ok?
    ensures Add(a, b).Ok? ==> Add(a, b) == Add(b, a)
  {
    if a.currency == b.currency {
      AddUnits(a, b);
      AddUnits(b, a);
    }
  }

  /** `e + z` where `e` is a sum already evaluated: its error propagates. */
  function AddTo(e: Result<Money>, z: Money): Result<Money>
  {
    if e.Err? then e else Add(e.value, z)
  }

  /** `x + e` where `e` is a sum already evaluated: its error propagates. */
  function AddOnto(x: Money, e: Result<Money>): Result<Money>
  {
    if e.Err? then e else Add(x, e.value)
  }

  /** Addition is associative: `(x + y) + z` (which is also how `x + y + z`
      is evaluated) and `x + (y + z)` both succeed exactly when the three
      share a currency, and then they are equal. */
  lemma AddAssociative(x: Money, y: Money, z: Money)
    ensures AddTo(Add(x, y), z).Ok? <==> x.currency == y.currency == z.currency
    ensures AddOnto(x, Add(y, z)).Ok? <==> x.currency == y.currency == z.currency
    ensures AddTo(Add(x, y), z).Ok? ==> AddTo(Add(x, y), z) == AddOnto(x, Add(y, z))
  {
    if x.currency == y.currency == z.currency {
      AddUnits(x, y);
      AddUnits(y, z);
      AddUnits(Add(x, y).value, z);
      AddUnits(x, Add(y, z).value);
    }
  }

  /** The two groupings may fail with different errors: EUR + (USD + EUR)
      reports USD as expected, (EUR + USD) + EUR reports EUR. */
  lemma AddGroupingChangesError()
    ensures AddTo(Add(Zero(EUR), Zero(USD)), Zero(EUR)) == Err(Mismatch(EUR, USD))
    ensures AddOnto(Zero(EUR), Add(Zero(USD), Zero(EUR))) == Err(Mismatch(USD, EUR))
  {
  }

  /** `first + rest[0] + rest[1] + ...`, evaluated left to right. */
  function SumLeft(first: Money, rest: seq<Money>): Result<Money>
    decreases |rest|
  {
    if rest == [] then Ok(first)
    else AddTo(SumLeft(first, rest[..|rest| - 1]), rest[|rest| - 1])
  }

  /** The chained `x + y + z` agrees with both groupings: it succeeds
      exactly when the three share a currency, and then equals `(x + y) + z`
      and `x + (y + z)`. */
  lemma ChainedSum(x: Money, y: Money, z: Money)
    ensures SumLeft(x, [y, z]).Ok? <==> x.currency == y.currency == z.currency
    ensures x.currency == y.currency == z.currency ==>
      SumLeft(x, [y, z]) == AddTo(Add(x, y), z) == AddOnto(x, Add(y, z))
  {
    assert [y, z][..1] == [y];
    assert [y][..0] == [];
    assert SumLeft(x, []) == Ok(x);
    assert SumLeft(x, [y]) == AddTo(Ok(x), y) == Add(x, y);
    AddAssociative(x, y, z);
  }

  /** The least units of all of `ms` together. */
  function TotalUnits(ms: seq<Money>): int
  {
    if ms == [] then 0 else TotalUnits(ms[..|ms| - 1]) + ms[|ms| - 1].units
  }

  /** Every Money of `ms` is in currency `c`. */
  predicate AllIn(c: Currency, ms: seq<Money>)
  {
    forall i :: 0 <= i < |ms| ==> ms[i].currency == c
  }

  /** A chain of additions of one currency succeeds and is exact. */
  lemma {:induction false} SumLeftExact(first: Money, rest: seq<Money>)
    requires AllIn(first.currency, rest)
    ensures SumLeft(first, rest) == Ok(Money(first.currency, first.units + TotalUnits(rest)))
    decreases |rest|
  {
    if rest != [] {
      var init, last := rest[..|rest| - 1], rest[|rest| - 1];
      SumLeftExact(first, init);
      AddUnits(Money(first.currency, first.units + TotalUnits(init)), last);
    }
  }

  /** A chain of additions fails at the first term `rest[i]` whose currency
      differs from the first term's, with that pair as the mismatch. */
  lemma {:induction false} SumLeftMismatch(first: Money, rest: seq<Money>, i: nat)
    requires i < |rest| && rest[i].currency != first.currency
    requires AllIn(first.currency, rest[..i])
    ensures SumLeft(first, rest) == Err(Mismatch(first.currency, rest[i].currency))
    decreases |rest|
  {
    var init := rest[..|rest| - 1];
    if i == |rest| - 1 {
      assert init == rest[..i];
      SumLeftExact(first, init);
    } else {
      assert init[..i] == rest[..i];
      SumLeftMismatch(first, init, i);
    }
  }

  /** The raw converted amount: the amount times the provider's rate for
      (m's currency, target), before rounding. */
  function Converted(m: Money, target: Currency, rate: (Currency, Currency) -> real): real
  {
    Amount(m) * rate(m.currency, target)
  }

  /** At a non-negative rate the raw conversion keeps the order of amounts and
      keeps non-negative amounts non-negative. */
  lemma ConvertedMonotone(a: Money, b: Money, target: Currency, rate: (Currency, Currency) -> real)
    requires a.currency == b.currency && rate(a.currency, target) >= 0.0
    requires Amount(a) <= Amount(b)
    ensures Converted(a, target, rate) <= Converted(b, target, rate)
    ensures Amount(a) >= 0.0 ==> Converted(a, target, rate) >= 0.0
  {
    var r := rate(a.currency, target);
    assert (Amount(b) - Amount(a)) * r >= 0.0;
  }

  /** `m.change(target, rate)`: the converted amount rounded to the target's
      precision, in the target currency. */
  function Change(m: Money, target: Currency, rate: (Currency, Currency) -> real): (r: Money)
    ensures r.currency == target
    ensures -HalfUnit(Precision(target)) < Amount(r) - Converted(m, target, rate) <= HalfUnit(Precision(target))
  {
    Stock(target, Converted(m, target, rate))
  }

  /** When the converted amount is already at the target's precision, the
      conversion is exact. */
  lemma ChangeExact(m: Money, target: Currency, rate: (Currency, Currency) -> real, k: int)
    requires Converted(m, target, rate) == OnGrid(k, Precision(target))
    ensures Change(m, target, rate) == Money(target, k)
  {
    RoundOnGrid(k, Precision(target));
  }

  /** At a positive rate, a larger amount never converts to a smaller one,
      and a non-negative amount converts to a non-negative one. */
  lemma ChangeMonotone(a: Money, b: Money, target: Currency, rate: (Currency, Currency) -> real)
    requires a.currency == b.currency && rate(a.currency, target) > 0.0
    requires Amount(a) <= Amount(b)
    ensures Amount(Change(a, target, rate)) <= Amount(Change(b, target, rate))
    ensures Amount(a) >= 0.0 ==> Amount(Change(a, target, rate)) >= 0.0
  {
    ConvertedMonotone(a, b, target, rate);
    StockMonotone(target, Converted(a, target, rate), Converted(b, target, rate));
    if Amount(a) >= 0.0 {
      StockMonotone(target, 0.0, Converted(a, target, rate));
      RoundOnGrid(0, Precision(target));
    }
  }

  /** Changing into the same currency at par gives back the same Money. */
  lemma ChangeAtPar(m: Money, rate: (Currency, Currency) -> real)
    requires rate(m.currency, m.currency) == 1.0
    ensures Change(m, m.currency, rate) == m
  {
    StockIdempotent(m);
  }
}
