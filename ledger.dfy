/**
 * Reference semantics of the buyer's ledger, independent of the messages
 * the services build: what a deposit, a reset and a purchase do to a
 * buyer's balance and a product's stock. The service methods are proved
 * to implement these functions; the lemmas here are about runs of them.
 */
module Ledger {

  import opened Coins

  /** A deposit is credited exactly when the amount satisfies the coin policy. */
  function Deposit(balance: int, amount: int): int {
    if IsCoinAmount(amount) then balance + amount else balance
  }

  function Reset(balance: int): int {
    0
  }

  /** The funds cover `quantity` units and the stock holds them. */
  predicate CanPurchase(balance: int, cost: int, stock: int, quantity: int) {
    cost * quantity <= balance && quantity <= stock
  }

  /** One buyer's balance against one product's unit cost and stock. */
  datatype Market = Market(balance: int, cost: int, stock: int)

  /** A purchase debits the total cost and removes the units, or changes nothing. */
  function Purchase(m: Market, quantity: int): Market {
    if CanPurchase(m.balance, m.cost, m.stock, quantity) then
      Market(m.balance - m.cost * quantity, m.cost, m.stock - quantity)
    else
      m
  }

  datatype Op = DepositCoins(amount: int) | ResetBalance | Buy(quantity: int)

  /** The bounds the request layer enforces before any operation runs. */
  predicate Admissible(op: Op) {
    match op
    case DepositCoins(amount) => 1 <= amount <= 1000
    case ResetBalance => true
    case Buy(quantity) => 1 <= quantity <= 1000
  }

  predicate AllAdmissible(ops: seq<Op>) {
    forall i :: 0 <= i < |ops| ==> Admissible(ops[i])
  }

  predicate NoReset(ops: seq<Op>) {
    forall i :: 0 <= i < |ops| ==> !ops[i].ResetBalance?
  }

  function Step(m: Market, op: Op): Market {
    match op
    case DepositCoins(amount) => m.(balance := Deposit(m.balance, amount))
    case ResetBalance => m.(balance := Reset(m.balance))
    case Buy(quantity) => Purchase(m, quantity)
  }

  function Run(m: Market, ops: seq<Op>): Market
    decreases |ops|
  {
    if ops == [] then m else Run(Step(m, ops[0]), ops[1..])
  }

  /** Units handed over by the successful purchases of a run. */
  function Sold(m: Market, ops: seq<Op>): int
    decreases |ops|
  {
    if ops == [] then 0
    else
      (if ops[0].Buy? && CanPurchase(m.balance, m.cost, m.stock, ops[0].quantity) then ops[0].quantity else 0)
      + Sold(Step(m, ops[0]), ops[1..])
  }

  /** Coins credited by the accepted deposits of a run. */
  function Credited(m: Market, ops: seq<Op>): int
    decreases |ops|
  {
    if ops == [] then 0
    else
      (if ops[0].DepositCoins? && IsCoinAmount(ops[0].amount) then ops[0].amount else 0)
      + Credited(Step(m, ops[0]), ops[1..])
  }

  /**
   * The state the operations keep: the balance is non-negative and made of
   * whole coins, the stock is non-negative, the cost obeys the coin policy.
   */
  predicate Sound(m: Market) {
    0 <= m.balance && IsCoinMultiple(m.balance) && 0 <= m.stock && IsCoinAmount(m.cost)
  }

  lemma CoinMultipleTimes(cost: int, quantity: int)
    requires IsCoinMultiple(cost)
    ensures IsCoinMultiple(cost * quantity)
  {
    var k := cost / Denomination;
    assert cost == Denomination * k;
    assert cost * quantity == Denomination * (k * quantity);
  }

  lemma StepPreservesSound(m: Market, op: Op)
    requires Sound(m) && Admissible(op)
    ensures Sound(Step(m, op))
  {
    if op.Buy? && CanPurchase(m.balance, m.cost, m.stock, op.quantity) {
      CoinMultipleTimes(m.cost, op.quantity);
    }
  }

  /** Every admissible run from a sound state ends in a sound state. */
  lemma {:induction false} RunPreservesSound(m: Market, ops: seq<Op>)
    requires Sound(m) && AllAdmissible(ops)
    ensures Sound(Run(m, ops))
    decreases |ops|
  {
    if ops != [] {
      StepPreservesSound(m, ops[0]);
      assert AllAdmissible(ops[1..]) by {
        forall i | 0 <= i < |ops[1..]| ensures Admissible(ops[1..][i]) {
          assert ops[1..][i] == ops[i + 1];
        }
      }
      RunPreservesSound(Step(m, ops[0]), ops[1..]);
    }
  }

  lemma {:induction false} RunKeepsCost(m: Market, ops: seq<Op>)
    ensures Run(m, ops).cost == m.cost
    decreases |ops|
  {
    if ops != [] {
      RunKeepsCost(Step(m, ops[0]), ops[1..]);
    }
  }

  /** Units leave the stock only by being sold. */
  lemma {:induction false} RunConservesStock(m: Market, ops: seq<Op>)
    ensures Run(m, ops).stock + Sold(m, ops) == m.stock
    decreases |ops|
  {
    if ops != [] {
      RunConservesStock(Step(m, ops[0]), ops[1..]);
    }
  }

  /** Without resets, every coin is either still in the balance or paid for a sold unit. */
  lemma {:induction false} RunConservesCoins(m: Market, ops: seq<Op>)
    requires NoReset(ops)
    ensures Run(m, ops).balance + m.cost * Sold(m, ops) == m.balance + Credited(m, ops)
    decreases |ops|
  {
    if ops != [] {
      var m' := Step(m, ops[0]);
      assert NoReset(ops[1..]) by {
        forall i | 0 <= i < |ops[1..]| ensures !ops[1..][i].ResetBalance? {
          assert ops[1..][i] == ops[i + 1];
        }
      }
      assert !ops[0].ResetBalance?;
      RunConservesCoins(m', ops[1..]);
      assert m'.cost == m.cost;
      var q := if ops[0].Buy? && CanPurchase(m.balance, m.cost, m.stock, ops[0].quantity) then ops[0].quantity else 0;
      assert m.cost * Sold(m, ops) == m.cost * q + m.cost * Sold(m', ops[1..]);
    }
  }

  /** Successful purchases never hand over more units than were in stock. */
  lemma NeverOversold(m: Market, ops: seq<Op>)
    requires Sound(m) && AllAdmissible(ops)
    ensures Sold(m, ops) <= m.stock
  {
    RunConservesStock(m, ops);
    RunPreservesSound(m, ops);
  }

  /** Two purchases of the whole stock in a row: the first succeeds, the second is refused. */
  lemma SecondPurchaseOfWholeStockRefused(m: Market)
    requires Sound(m) && 1 <= m.stock && m.cost * m.stock <= m.balance
    ensures CanPurchase(m.balance, m.cost, m.stock, m.stock)
    ensures Purchase(m, m.stock).stock == 0
    ensures Purchase(Purchase(m, m.stock), m.stock) == Purchase(m, m.stock)
  {
  }

  /** Resetting twice is the same as resetting once. */
  lemma ResetIdempotent(balance: int)
    ensures Reset(Reset(balance)) == Reset(balance) == 0
  {
  }
}
