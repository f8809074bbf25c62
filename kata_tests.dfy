/** The concrete cases the kata's two test suites check, stated over the
    model. Decimal literals stand for the exact decimals they denote. */
module KataTests {
  import opened Rounding
  import opened Currencies

  /** Rounding to EUR's two digits: 1.234 -> 1.23, 1.235 -> 1.24 (a tie
      goes up), 1.236 -> 1.24. */
  lemma EurRoundsToNearest()
    ensures Stock(EUR, 1.234) == Stock(EUR, 1.23) == Money(EUR, 123)
    ensures Stock(EUR, 1.235) == Stock(EUR, 1.24) == Money(EUR, 124)
    ensures Stock(EUR, 1.236) == Stock(EUR, 1.24)
  {
  }

  /** Each currency keeps one least unit and drops a tenth of it. */
  lemma PrecisionPerCurrency()
    ensures Stock(EUR, 0.01) == Money(EUR, 1) && Stock(EUR, 0.001) == Zero(EUR)
    ensures Stock(USD, 0.001) == Money(USD, 1) && Stock(USD, 0.0001) == Zero(USD)
    ensures Stock(XBT, 0.00000001) == Money(XBT, 1) && Stock(XBT, 0.000000001) == Zero(XBT)
  {
  }

  /** EUR(2) + EUR(3) == EUR(5). */
  lemma EurTwoPlusThree()
    ensures Add(Stock(EUR, 2.0), Stock(EUR, 3.0)) == Ok(Stock(EUR, 5.0))
  {
    AddWhole(EUR, 2, 3);
  }

  /** EUR(x) + USD(y) fails for every pair of amounts, with the message
      "Mismatch currency, expected EUR got USD". */
  lemma EurPlusUsdFails(x: real, y: real)
    ensures Add(Stock(EUR, x), Stock(USD, y)) == Err(Mismatch(EUR, USD))
    ensures Message(Add(Stock(EUR, x), Stock(USD, y)).error) == "Mismatch currency, expected EUR got USD"
  {
  }

  /** EUR(10) changed to USD by any provider quoting 1 EUR = 1.19 USD is
      USD(11.9). */
  lemma EurToUsdAtFixedRate(rate: (Currency, Currency) -> real)
    requires rate(EUR, USD) == 1.19
    ensures Change(Stock(EUR, 10.0), USD, rate) == Stock(USD, 11.9) == Money(USD, 11900)
  {
  }
}
