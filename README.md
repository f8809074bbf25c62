# Money and Currency of the wallet kata, in Dafny

The kata's `currency` module defines a small closed set of currencies (`EUR`,
`USD`, `XBT`), each with a decimal precision, and an immutable `Money` value: an
amount tagged with a currency. A currency rounds a raw number to its precision
(`EUR.stock(x)` in one test suite, `EUR.amount(x)` in the other; the call
`EUR(x)` is taken to round the same way), to the nearest value with a tie
going up. Money of one currency adds
exactly; adding Money of two different currencies raises an error with the
message `Mismatch currency, expected <left> got <right>`. `change(target, rate)`
multiplies the amount by the rate an injected provider gives for the pair of
currencies and rounds the product to the target's precision.

The implementation module itself is not part of this model; its behaviour is
taken from the assertions of its two test suites,
`kata-wallet/wallet/currency_test.py` and `kata-wallet/test_currency.py`.

Files:

- `rounding.dfy`, module `Rounding`: half-up rounding of exact reals to `p`
  decimal digits, as a count of least units (units of 10^-p), and its laws.
- `currency.dfy`, module `Currencies`: `Currency`, `Money`, the rounding
  constructor `Stock`, equality, `Add` with its `Mismatch` error, `Change`, and
  the monoid and conversion laws.
- `kata_tests.dfy`, module `KataTests`: the concrete cases both suites assert.

Modelling decisions:

- A `Money` holds its currency and a whole number of least units, so its amount
  is always exactly at the currency's precision and never a binary float.
- Raw inputs are Dafny `real`s, exact rationals; a Python literal such as
  `1.235` is taken to be the decimal it denotes.
- Rounding is `Floor(x * 10^p + 1/2)`. For non-negative amounts this is
  "round half up". For negative non-integers it rounds a tie toward +infinity
  (-1.235 gives -1.23), where "half away from zero" would give -1.24; the test
  suites only use whole numbers when amounts are negative, and on whole numbers
  both rules agree.
- The currency called as a function, `EUR(x)`, is taken to be the same
  rounding constructor as `stock`/`amount`: every construction rounds.
- `+` re-rounds the exact sum of the two amounts; the model proves that this
  re-rounding never changes anything (`Currencies.AddUnits`).
- The raised `TypeError` is the `Err(Mismatch(expected, actual))` value of a
  `Result`; `Currencies.Message` gives its text. An exception raised inside a
  parenthesised sum propagates, as `Currencies.AddTo` and `Currencies.AddOnto`
  model.
- The rate provider is a parameter `rate: (Currency, Currency) -> real`; only
  its value for (source currency, target) is used.

## Model

| member | source | states |
|---|---|---|
| `Rounding.RoundHalfUp` | kata-wallet/wallet/currency_test.py:14-17 | the rounded unit count k satisfies k - 1/2 <= x * 10^p < k + 1/2 |
| `Rounding.RoundHalfUpUnique` | kata-wallet/wallet/currency_test.py:14-17 | conversely, any integer k with k - 1/2 <= x * 10^p < k + 1/2 is the rounded result, so the rule has exactly one answer |
| `Rounding.RoundHalfUpError` | kata-wallet/test_currency.py:12-15 | the rounded value is below the raw value by less than half a least unit, and above it by at most half a least unit |
| `Rounding.RoundIsNearest` | kata-wallet/test_currency.py:12-15 | no grid point at precision p is closer to x than the rounded one, and one equally close lies below it |
| `Rounding.RoundTieGoesUp` | kata-wallet/wallet/currency_test.py:16 | a value exactly half a least unit above k units rounds to k + 1 |
| `Rounding.RoundOnGrid` | kata-wallet/wallet/currency_test.py:21 | a value already at precision p (k units) rounds to itself |
| `Rounding.RoundBelowHalfUnit` | kata-wallet/wallet/currency_test.py:22 | any value in [-half unit, +half unit) rounds to zero |
| `Rounding.RoundMonotone` | kata-wallet/test_currency.py:12-15 | a larger raw value never rounds to fewer units |
| `Currencies.CodeIdentifies` | kata-wallet/test_currency.py:53 | two currencies are equal exactly when their codes are |
| `Currencies.Stock` | kata-wallet/wallet/currency_test.py:14-17 | the result is in the given currency and within half a least unit of the raw amount (above by at most half, below by less) |
| `Currencies.Zero` | kata-wallet/test_currency.py:39 | EUR(0) and its kin: the currency given, amount exactly 0 |
| `Currencies.StockIsNearest` | kata-wallet/wallet/currency_test.py:14-17 | no Money of the currency is closer to the raw amount than the rounded one; an equally close one lies below it (tie goes up) |
| `Currencies.StockIdempotent` | kata-wallet/wallet/currency_test.py:21 | rounding the amount of a Money into its own currency gives the same Money back |
| `Currencies.StockTwice` | kata-wallet/test_currency.py:19 | rounding twice equals rounding once |
| `Currencies.StockLeastUnit` | kata-wallet/wallet/currency_test.py:20-32 | for every currency one least unit is kept exactly, any non-negative amount below half a unit becomes zero, and a tenth of a unit becomes zero |
| `Currencies.StockWhole` | kata-wallet/wallet/currency_test.py:10-11 | a whole number n of a currency is exactly n * 10^precision least units |
| `Currencies.StockMonotone` | kata-wallet/test_currency.py:12-15 | a larger raw amount never rounds to a smaller Money |
| `Currencies.SameIsEquality` | kata-wallet/test_currency.py:34 | observed equality (same currency and same amount) holds exactly when the two Money values are identical; equal amounts in different currencies are unequal |
| `Currencies.Message` | kata-wallet/wallet/currency_test.py:54 | the 39-character text "Mismatch currency, expected " followed by the expected code, " got " and the actual code |
| `Currencies.MessageIdentifies` | kata-wallet/test_currency.py:53 | the message alone determines both currencies of the mismatch |
| `Currencies.Add` | kata-wallet/wallet/currency_test.py:35-37 | succeeds exactly when the currencies agree, then in that currency with the exact sum of the amounts; otherwise fails with Mismatch(left currency, right currency) |
| `Currencies.AddUnits` | kata-wallet/test_currency.py:33-34 | same-currency addition adds the least units, with nothing lost to rounding |
| `Currencies.AddWhole` | kata-wallet/wallet/currency_test.py:35-37 | c(x) + c(y) == c(x + y) for all integers x, y, negatives included, in every currency |
| `Currencies.AddZero` | kata-wallet/wallet/currency_test.py:40-42 | the zero of a Money's currency is neutral on the left and on the right |
| `Currencies.AddCommutative` | kata-wallet/wallet/currency_test.py:37 | a generalisation, not asserted there: a + b succeeds exactly when b + a does, and then they are equal (follows from c(x) + c(y) == c(x + y) being symmetric in x and y) |
| `Currencies.AddAssociative` | kata-wallet/wallet/currency_test.py:45-47 | (x + y) + z and x + (y + z) each succeed exactly when all three share a currency, and then are equal |
| `Currencies.ChainedSum` | kata-wallet/test_currency.py:47 | the chained x + y + z succeeds exactly when all three share a currency, and then equals both (x + y) + z and x + (y + z) |
| `Currencies.AddGroupingChangesError` | kata-wallet/test_currency.py:47 | across currencies the two groupings can report different mismatches: (EUR + USD) + EUR names EUR as expected, EUR + (USD + EUR) names USD |
| `Currencies.SumLeftExact` | kata-wallet/test_currency.py:43-47 | a left-to-right chain of additions in one currency succeeds with the sum of all least units |
| `Currencies.SumLeftMismatch` | kata-wallet/test_currency.py:50-53 | a chain fails with Mismatch(first currency, currency of the first term that differs) |
| `Currencies.ConvertedMonotone` | kata-wallet/wallet/currency_test.py:58 | at a non-negative rate the raw converted amount keeps the order of amounts and keeps non-negative amounts non-negative |
| `Currencies.Change` | kata-wallet/wallet/currency_test.py:57-58 | the result is in the target currency and within half a target least unit of amount * rate(source, target) |
| `Currencies.ChangeExact` | kata-wallet/test_currency.py:56-57 | when amount * rate is already at the target's precision, the conversion gives exactly that amount |
| `Currencies.ChangeMonotone` | kata-wallet/wallet/currency_test.py:58 | at a positive rate a larger amount never converts to less, and a non-negative amount converts to a non-negative one |
| `Currencies.ChangeAtPar` | kata-wallet/test_currency.py:57 | a generalisation of the conversion law, not asserted there: changing into the Money's own currency at rate 1 gives the same Money back |
| `KataTests.EurRoundsToNearest` | kata-wallet/wallet/currency_test.py:14-17 | EUR: 1.234 gives 1.23, 1.235 gives 1.24, 1.236 gives 1.24 |
| `KataTests.PrecisionPerCurrency` | kata-wallet/test_currency.py:18-30 | EUR keeps 0.01 and drops 0.001; USD keeps 0.001 and drops 0.0001; XBT keeps 0.00000001 and drops 0.000000001 |
| `KataTests.EurTwoPlusThree` | kata-wallet/test_currency.py:33-34 | EUR(2) + EUR(3) == EUR(5) |
| `KataTests.EurPlusUsdFails` | kata-wallet/wallet/currency_test.py:50-54 | EUR(x) + USD(y) fails for all amounts with the text "Mismatch currency, expected EUR got USD" |
| `KataTests.EurToUsdAtFixedRate` | kata-wallet/test_currency.py:56-57 | with any provider quoting 1 EUR = 1.19 USD, EUR(10) changes to USD(11.9), i.e. 11900 USD least units |

## Left out

- Live rate providers `yahoo_exchange_rates` and `google_exchange_rates`
  (kata-wallet/test_exchange_rates.py:1-11): network calls with time-varying
  results.
- `Wallet(...).amount(...)` (kata-wallet/test_exchange_rates.py:14-15): the
  Wallet code is not part of this model, and its only test depends on a live
  provider.
- `fixed_exchange_rates` and `rate`, including parsing the text
  `"1 EUR = 1.19 USD"`: their code is not part of this model. Any provider is a
  total function from a pair of currencies to a real rate.
- Errors raised by a provider, and their propagation through `change`: the
  rate function of the model is total and cannot fail.
- `Currencies.Change`: has no precondition that the rate is positive, since
  the core does not check it; the properties that need a positive rate
  (`Currencies.ChangeMonotone`) assume it.
- Binary floating-point behaviour of the Python literals: the model works on
  the exact decimals they denote.
- Rounding of negative non-integers: the model's rule rounds a tie toward
  +infinity; which way the implementation goes is not pinned down by the tests.
- The exception type `TypeError`: modelled as the `Mismatch` error value and its
  message text.
- The random and Hypothesis generators of the test suites: they only pick
  inputs, which the lemmas quantify over instead.
