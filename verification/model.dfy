/**
  The records the services exchange. A product's `inStock` and `quantity` are
  not owned by the catalog: the handlers fill them from the stock ledger on
  every read. Prices and totals are whole cents.
*/
module Model {
  import opened Common

  type Cents = int

  datatype Product = Product(id: string, name: string, price: Cents, inStock: bool, quantity: Int32)

  datatype Order = Order(id: string, productIds: seq<string>, total: Cents, status: string)

  /** One line of a stock update sent to the catalog: set `productId` to `quantity`. */
  datatype OrderItem = OrderItem(productId: string, quantity: Int32)

  /** Go's zero value `Product{}`. */
  const ZeroProduct := Product("", "", 0, false, 0)

  /** Go's zero value `model.Order{}`. */
  const ZeroOrder := Order("", [], 0, "")

  function HasId(id: string): Product -> bool
  {
    (p: Product) => p.id == id
  }

  function OrderHasId(id: string): Order -> bool
  {
    (o: Order) => o.id == id
  }

  /** A catalog record with the ledger's quantity and the in-stock flag derived from it. */
  function WithStock(p: Product, quantity: Int32): Product
  {
    Product(p.id, p.name, p.price, quantity > 0, quantity)
  }
}
