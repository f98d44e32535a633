/** The `Product` model of the products application. */
module ProductModels {

  /**
   * A product row loaded into memory. The seller is the owning user's
   * primary key: two users compare equal when their keys do.
   */
  class Product {
    var name: string
    const sellerPk: nat
    var cost: int
    var amountAvailable: int

    /** The column types: `cost` and `amount_available` are unsigned. */
    predicate Valid()
      reads this
    {
      0 <= cost && 0 <= amountAvailable
    }

    /** A row can only hold unsigned cost and stock. */
    constructor (name: string, sellerPk: nat, cost: int, amountAvailable: int)
      requires 0 <= cost && 0 <= amountAvailable
      ensures this.name == name && this.sellerPk == sellerPk
      ensures this.cost == cost && this.amountAvailable == amountAvailable
      ensures Valid()
    {
      this.name := name;
      this.sellerPk := sellerPk;
      this.cost := cost;
      this.amountAvailable := amountAvailable;
    }
  }
}
