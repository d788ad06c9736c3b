/**
  Whole-system call sequences over the services' seed data, each built from fresh
  objects and stated as the exact replies and final states they produce.
*/
module Scenarios {
  import opened Common
  import opened Model
  import opened Inventory
  import opened CatalogGrpc
  import opened ProductHttp
  import opened Orders

  /** A repeated id is matched twice; an unknown id voids the whole answer. */
  lemma ValidateSeedCatalog()
    ensures Validate(SeedCatalog, ["1", "1"]) == Valid([SeedCatalog[0], SeedCatalog[0]])
    ensures Validate(SeedCatalog, ["1", "9"]) == Invalid(SomeProductsNotFound)
  {
  }

  /** The seed catalog validates ["1", "2"] as itself, priced at 999.99 + 29.99. */
  lemma SeedOrderPriced()
    ensures Validate(SeedCatalog, ["1", "2"]) == Valid(SeedCatalog)
    ensures Total(SeedCatalog) == 102998
  {
  }

  /** The stock lines of ["1", "2"] set both seed entries to 1. */
  lemma SeedOrderStock()
    ensures RunFrom(SeedInventory, UnitItems(["1", "2"]), map[], 0) == (map["1" := 1, "2" := 1], StockUpdated)
  {
    var items := [OrderItem("1", 1), OrderItem("2", 1)];
    assert UnitItems(["1", "2"]) == items;
    var afterFirst := map["1" := 1, "2" := 50];
    assert SeedInventory["1" := 1] == afterFirst;
    assert Call(SeedInventory, items[0], LinkAt(map[], 0)) == (afterFirst, None);
    assert afterFirst["2" := 1] == map["1" := 1, "2" := 1];
    assert Call(afterFirst, items[1], LinkAt(map[], 1)) == (map["1" := 1, "2" := 1], None);
  }

  /** Ordering a laptop and a mouse from the seeds: total 1029.98, status pending, and both
      ledger entries set to 1 (not decremented). */
  method PlaceOrderFromSeeds() returns (reply: HttpReply<Order>, stock: map<string, Int32>, orders: seq<Order>)
    ensures reply == Ok(Order("3", ["1", "2"], 102998, Pending))
    ensures stock == map["1" := 1, "2" := 1]
    ensures orders == SeedOrders + [Order("3", ["1", "2"], 102998, Pending)]
  {
    var ledger := new Ledger(SeedInventory);
    var shop := new ProductService(ledger);
    var service := new OrderService(shop.grpc);
    var ids := ["1", "2"];
    SeedOrderPriced();
    SeedOrderStock();
    reply := service.CreateOrder(Order("3", ids, 0, ""), Delivered, Delivered, map[]);
    stock := ledger.inventory;
    orders := service.orders;
  }

  /** Stock lines ("1", 5) then ("9", 5) against the seed ledger: the first write lands, the second
      is rejected, the reply is a failure, and "1" stays at 5. */
  method PartialStockUpdate() returns (resp: UpdateStockResponse, stock: map<string, Int32>)
    ensures resp == StockUpdateFailed(Remote(ProductNotFound))
    ensures stock == map["1" := 5, "2" := 50]
  {
    var ledger := new Ledger(SeedInventory);
    var server := new CatalogServer(ledger, SeedCatalog);
    resp := server.UpdateProductStock([OrderItem("1", 5), OrderItem("9", 5)], map[]);
    stock := ledger.inventory;
  }

  /** The catalog knows product "2" but the ledger does not: the stock update fails on its first
      line and writes nothing, yet the order is committed as pending. */
  method OrderCommittedDespiteStockFailure() returns (reply: HttpReply<Order>, stock: map<string, Int32>, orders: seq<Order>)
    ensures reply == Ok(Order("4", ["2", "1"], 102998, Pending))
    ensures stock == map["1" := 100]
    ensures orders == SeedOrders + [Order("4", ["2", "1"], 102998, Pending)]
  {
    var ledger := new Ledger(map["1" := 100]);
    var shop := new ProductService(ledger);
    var service := new OrderService(shop.grpc);
    var ids := ["2", "1"];
    assert Listed(SeedCatalog, "1") by { assert SeedCatalog[0].id == "1"; }
    assert Listed(SeedCatalog, "2") by { assert SeedCatalog[1].id == "2"; }
    ValidateMeaning(SeedCatalog, ids);
    assert Validate(SeedCatalog, ids) == Valid([SeedCatalog[1], SeedCatalog[0]]);
    reply := service.CreateOrder(Order("4", ids, 0, ""), Delivered, Delivered, map[]);
    stock := ledger.inventory;
    orders := service.orders;
  }

  /** Deleting a product the catalog does not list answers 404 and makes no ledger call: the
      ledger's own entry for that id survives. */
  method DeleteUnknownProduct() returns (reply: HttpReply<Product>, stock: map<string, Int32>)
    ensures reply == Error(StatusNotFound, ProductNotFoundText)
    ensures stock == SeedInventory["9" := 7]
  {
    var ledger := new Ledger(SeedInventory["9" := 7]);
    var shop := new ProductService(ledger);
    reply := shop.DeleteProduct("9", Delivered);
    stock := ledger.inventory;
  }
}
