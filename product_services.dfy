/** The product services: cost validation, create, update and purchase. */
module ProductServices {

  import opened Common
  import opened Coins
  import opened Decimal
  import opened AccountModels
  import opened ProductModels
  import Ledger

  const CostMultipleMessage: string := "Product cost can only be a multiple of 5."
  const CostRangeMessage: string := "Product cost can be set values between 0 to 100."

  /** The purchase response body: the buyer's balance after paying, the product, the price. */
  datatype BuyResponse = BuyResponse(change: int, productName: string, totalCost: int)

  const FundsPrefix: string := "Insufficient funds. " + "Please make sure to have at least "
  const FundsSuffix: string := " in your deposit."
  const StockPrefix: string := "Product insufficient stock. " + "You can only buy a total of "
  const StockSuffix: string := "."

  function FundsMessage(totalCost: int): (m: string)
    ensures |m| > 0 && m[0] == 'I'
  {
    FundsPrefix + IntToDecimal(totalCost) + FundsSuffix
  }

  function StockMessage(available: int): (m: string)
    ensures |m| > 0 && m[0] == 'P'
  {
    StockPrefix + IntToDecimal(available) + StockSuffix
  }

  /**
   * Both rules are checked; each violated one contributes its message, the
   * multiple-of-5 rule first. A cost of 0 is accepted.
   */
  function ValidateProductCost(cost: int): (errors: seq<string>)
    ensures errors == [] <==> IsCoinAmount(cost)
    ensures CostMultipleMessage in errors <==> !IsCoinMultiple(cost)
    ensures CostRangeMessage in errors <==> !InCoinRange(cost)
    ensures forall m :: m in errors ==> m == CostMultipleMessage || m == CostRangeMessage
    ensures |errors| <= 2
    ensures |errors| == 2 ==> errors == [CostMultipleMessage, CostRangeMessage]
  {
    assert CostMultipleMessage[17] != CostRangeMessage[17];
    (if cost % 5 != 0 then [CostMultipleMessage] else [])
    + (if cost > 100 || cost < 0 then [CostRangeMessage] else [])
  }

  /**
   * Creates a product owned by `seller` when the cost is valid; otherwise
   * creates nothing and reports the validator's messages under "cost".
   */
  method CreateProduct(name: string, cost: int, amountAvailable: int, seller: User)
    returns (product: Product?, errors: Errors)
    requires amountAvailable >= 0
    ensures IsCoinAmount(cost) ==>
      errors == map[] && product != null && fresh(product)
      && product.name == name && product.cost == cost
      && product.amountAvailable == amountAvailable && product.sellerPk == seller.pk
      && product.Valid()
    ensures !IsCoinAmount(cost) ==>
      product == null && errors == map["cost" := ValidateProductCost(cost)]
  {
    product, errors := null, map[];
    var errorMessage := ValidateProductCost(cost);
    if errorMessage != [] {
      errors := map["cost" := errorMessage];
    } else {
      product := new Product(name, seller.pk, cost, amountAvailable);
    }
  }

  /**
   * The cost an update validates: the supplied one, or the product's
   * current cost when the supplied one is falsy (0).
   */
  function CostToValidate(cost: int, current: int): int {
    if cost != 0 then cost else current
  }

  /**
   * Revalidates the cost (see CostToValidate). On failure nothing changes;
   * on success each truthy argument (non-empty name, non-zero cost or stock)
   * overwrites its field and the others keep their values.
   */
  method UpdateProduct(name: string, cost: int, amountAvailable: int, instance: Product)
    returns (product: Product?, errors: Errors)
    requires amountAvailable >= 0
    modifies instance
    ensures var checked := CostToValidate(cost, old(instance.cost));
      errors == if IsCoinAmount(checked) then map[] else map["cost" := ValidateProductCost(checked)]
    ensures errors != map[] ==>
      product == null
      && instance.name == old(instance.name) && instance.cost == old(instance.cost)
      && instance.amountAvailable == old(instance.amountAvailable)
    ensures errors == map[] ==>
      product == instance
      && instance.name == (if name != "" then name else old(instance.name))
      && instance.cost == (if cost != 0 then cost else old(instance.cost))
      && instance.amountAvailable == (if amountAvailable != 0 then amountAvailable else old(instance.amountAvailable))
      && IsCoinAmount(instance.cost)
    ensures old(instance.Valid()) ==> instance.Valid()
  {
    product, errors := null, map[];
    var errorMessage := ValidateProductCost(if cost != 0 then cost else instance.cost);
    if errorMessage != [] {
      errors := map["cost" := errorMessage];
      assert "cost" in errors;
    } else {
      if name != "" {
        instance.name := name;
      }
      if cost != 0 {
        instance.cost := cost;
      }
      if amountAvailable != 0 {
        instance.amountAvailable := amountAvailable;
      }
      product := instance;
    }
  }

  /**
   * The purchase errors: the funds message when the deposit is below the
   * total cost, the stock message when fewer units are available than
   * asked for, in that order.
   */
  function ValidateBuy(cost: int, amountAvailable: int, amount: int, deposit: int): (errors: seq<string>)
    ensures errors == [] <==> Ledger.CanPurchase(deposit, cost, amountAvailable, amount)
    ensures FundsMessage(cost * amount) in errors <==> deposit < cost * amount
    ensures StockMessage(amountAvailable) in errors <==> amountAvailable < amount
    ensures forall m :: m in errors ==> m == FundsMessage(cost * amount) || m == StockMessage(amountAvailable)
    ensures |errors| <= 2
    ensures |errors| == 2 ==> errors == [FundsMessage(cost * amount), StockMessage(amountAvailable)]
  {
    var totalCost := cost * amount;
    (if deposit < totalCost then [FundsMessage(totalCost)] else [])
    + (if amountAvailable < amount then [StockMessage(amountAvailable)] else [])
  }

  /**
   * Sells `amountProducts` units when the buyer can pay and the stock
   * holds them: the deposit is debited by the total cost, the stock
   * decremented, and the remaining deposit reported as change. Otherwise
   * nothing changes and the purchase errors are reported under "details".
   */
  method BuyProduct(product: Product, amountProducts: int, buyer: User)
    returns (response: Option<BuyResponse>, errors: Errors)
    requires 1 <= amountProducts <= 1000
    modifies product, buyer
    ensures Ledger.Market(buyer.deposit, product.cost, product.amountAvailable)
      == Ledger.Purchase(Ledger.Market(old(buyer.deposit), old(product.cost), old(product.amountAvailable)), amountProducts)
    ensures response.Some? <==>
      Ledger.CanPurchase(old(buyer.deposit), old(product.cost), old(product.amountAvailable), amountProducts)
    ensures response.Some? ==>
      errors == map[]
      && buyer.deposit == old(buyer.deposit) - old(product.cost) * amountProducts
      && product.amountAvailable == old(product.amountAvailable) - amountProducts
      && buyer.deposit >= 0 && product.amountAvailable >= 0
      && response.value == BuyResponse(buyer.deposit, product.name, product.cost * amountProducts)
    ensures response.None? ==>
      errors == map["details" := ValidateBuy(old(product.cost), old(product.amountAvailable), amountProducts, old(buyer.deposit))]
      && buyer.deposit == old(buyer.deposit) && product.amountAvailable == old(product.amountAvailable)
    ensures product.name == old(product.name) && product.cost == old(product.cost)
    ensures buyer.username == old(buyer.username)
    ensures old(product.Valid()) ==> product.Valid()
  {
    response, errors := None, map[];
    var validationErrorsMessages := ValidateBuy(product.cost, product.amountAvailable, amountProducts, buyer.deposit);
    if validationErrorsMessages != [] {
      errors := map["details" := validationErrorsMessages];
    } else {
      var totalCost := product.cost * amountProducts;
      buyer.deposit := buyer.deposit - totalCost;
      product.amountAvailable := product.amountAvailable - amountProducts;
      response := Some(BuyResponse(buyer.deposit, product.name, totalCost));
    }
  }

  /** The funds message names the total cost: distinct totals give distinct messages. */
  lemma FundsMessageNamesTotal(a: int, b: int)
    requires FundsMessage(a) == FundsMessage(b)
    ensures a == b
  {
    var prefix, suffix := FundsPrefix, FundsSuffix;
    var sa, sb := IntToDecimal(a), IntToDecimal(b);
    assert FundsMessage(a) == prefix + sa + suffix;
    assert FundsMessage(b) == prefix + sb + suffix;
    assert |sa| == |sb|;
    assert sa == FundsMessage(a)[|prefix|..|prefix| + |sa|];
    assert sb == FundsMessage(b)[|prefix|..|prefix| + |sb|];
    IntToDecimalInjective(a, b);
  }

  /** The stock message names the available count. */
  lemma StockMessageNamesStock(a: int, b: int)
    requires StockMessage(a) == StockMessage(b)
    ensures a == b
  {
    var prefix := StockPrefix;
    var sa, sb := IntToDecimal(a), IntToDecimal(b);
    assert StockMessage(a) == prefix + sa + StockSuffix;
    assert StockMessage(b) == prefix + sb + StockSuffix;
    assert sa == StockMessage(a)[|prefix|..|prefix| + |sa|];
    assert sb == StockMessage(b)[|prefix|..|prefix| + |sb|];
    IntToDecimalInjective(a, b);
  }

  /** Enough stock but too little deposit: only the funds message, naming the total. */
  lemma FundsShortfallReportedAlone(cost: int, amountAvailable: int, amount: int, deposit: int)
    requires deposit < cost * amount && amount <= amountAvailable
    ensures ValidateBuy(cost, amountAvailable, amount, deposit) == [FundsMessage(cost * amount)]
  {
  }

  /** Enough deposit but too little stock: only the stock message, naming what is left. */
  lemma StockShortfallReportedAlone(cost: int, amountAvailable: int, amount: int, deposit: int)
    requires cost * amount <= deposit && amountAvailable < amount
    ensures ValidateBuy(cost, amountAvailable, amount, deposit) == [StockMessage(amountAvailable)]
  {
  }

  /** Cost 10, stock 2, deposit 100, three units asked: only the stock message, naming 2. */
  lemma OverStockPurchaseReportsStockOnly()
    ensures ValidateBuy(10, 2, 3, 100) == [StockMessage(2)]
    ensures StockMessage(2) == StockPrefix + "2" + StockSuffix
  {
    assert DigitChar(2) == '2';
  }

  /** Cost 10, stock 2, deposit 20, two units: sold out, no change left. */
  lemma ExactPurchaseLeavesNoChange()
    ensures ValidateBuy(10, 2, 2, 20) == []
    ensures Ledger.Purchase(Ledger.Market(20, 10, 2), 2) == Ledger.Market(0, 10, 0)
  {
  }
}
