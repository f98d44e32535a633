/**
 * The coin policy shared by deposits and product costs: an amount is
 * acceptable when it is a multiple of the coin denomination and lies in
 * the closed range 0..100.
 */
module Coins {

  const Denomination: int := 5
  const MinAmount: int := 0
  const MaxAmount: int := 100

  /** The amount can be paid in coins of the denomination. For a positive
      divisor Python's `%` and Dafny's `%` agree, so this is `not amount % 5`. */
  predicate IsCoinMultiple(amount: int) {
    amount % Denomination == 0
  }

  predicate InCoinRange(amount: int) {
    MinAmount <= amount <= MaxAmount
  }

  predicate IsCoinAmount(amount: int) {
    IsCoinMultiple(amount) && InCoinRange(amount)
  }
}
