/**
  The stock ledger: a map from product id to a 32-bit quantity, changed in
  place by four remote operations. Absence of a key and a zero quantity are
  different states, but a read reports both as quantity 0, not in stock.
  "Update" and "add" both SET the quantity; neither adds to it.
*/
module Inventory {
  import opened Common

  const ProductNotFound := "product not found"
  const StockDeleted := "stock deleted successfully"

  /** The ledger the inventory service starts with. */
  const SeedInventory: map<string, Int32> := map["1" := 100, "2" := 50]

  datatype StockResponse = StockResponse(productId: string, quantity: Int32, inStock: bool)
  {
    /** Every response the ledger builds reports in stock exactly when the quantity is positive. */
    predicate Consistent()
    {
      inStock == (quantity > 0)
    }
  }

  datatype DeleteResponse = DeleteResponse(success: bool, message: string)

  /** A reply or the error a Go method returns beside a nil reply. */
  datatype Result<T> = Success(value: T) | Failure(error: string)

  class Ledger {
    var inventory: map<string, Int32>

    /** The server wraps the map it is given; the map is its whole state. */
    constructor (inventory: map<string, Int32>)
      ensures this.inventory == inventory
    {
      this.inventory := inventory;
    }

    /** The quantity a read reports for `id`: the stored one, or Go's zero value when absent. */
    function Quantity(id: string): Int32
      reads this
    {
      if id in inventory then inventory[id] else 0
    }

    /** Reads never fail and never change the ledger; an absent id reads as (0, not in stock). */
    method CheckStock(id: string) returns (resp: StockResponse)
      ensures resp.productId == id && resp.Consistent()
      ensures id in inventory ==> resp.quantity == inventory[id]
      ensures id !in inventory ==> resp.quantity == 0 && !resp.inStock
    {
      var quantity := if id in inventory then inventory[id] else 0;
      resp := StockResponse(id, quantity, quantity > 0);
    }

    /** Set-if-present: overwrite an existing entry, reject an unknown id and change nothing. */
    method UpdateStock(id: string, quantity: Int32) returns (r: Result<StockResponse>)
      modifies this
      ensures id !in old(inventory) ==> r == Failure(ProductNotFound) && inventory == old(inventory)
      ensures id in old(inventory) ==> inventory == old(inventory)[id := quantity]
      ensures id in old(inventory) ==> r.Success? && r.value == StockResponse(id, quantity, quantity > 0)
      ensures r.Success? ==> r.value.Consistent()
    {
      if id !in inventory {
        return Failure(ProductNotFound);
      }
      inventory := inventory[id := quantity];
      r := Success(StockResponse(id, quantity, quantity > 0));
    }

    /** Unconditional upsert: afterwards `id` maps to `quantity` whether or not it was there. */
    method AddStock(id: string, quantity: Int32) returns (resp: StockResponse)
      modifies this
      ensures inventory == old(inventory)[id := quantity]
      ensures resp == StockResponse(id, quantity, quantity > 0) && resp.Consistent()
    {
      inventory := inventory[id := quantity];
      resp := StockResponse(id, quantity, quantity > 0);
    }

    /** Remove `id`; an absent id is reported in the reply (success = false), not as an error. */
    method DeleteStock(id: string) returns (resp: DeleteResponse)
      modifies this
      ensures resp.success <==> id in old(inventory)
      ensures id !in old(inventory) ==> resp.message == ProductNotFound && inventory == old(inventory)
      ensures id in old(inventory) ==> resp.message == StockDeleted && inventory == old(inventory) - {id}
    {
      if id !in inventory {
        return DeleteResponse(false, ProductNotFound);
      }
      inventory := inventory - {id};
      resp := DeleteResponse(true, StockDeleted);
    }
  }

  /** The server the inventory service registers, over its seed ledger. */
  method NewSeededLedger() returns (ledger: Ledger)
    ensures fresh(ledger)
    ensures ledger.inventory.Keys == {"1", "2"}
    ensures ledger.inventory["1"] == 100 && ledger.inventory["2"] == 50
  {
    ledger := new Ledger(SeedInventory);
  }

  /** An add followed by a read reports exactly what was added. */
  method AddThenCheck(ledger: Ledger, id: string, quantity: Int32) returns (resp: StockResponse)
    modifies ledger
    ensures resp == StockResponse(id, quantity, quantity > 0)
    ensures ledger.inventory == old(ledger.inventory)[id := quantity]
  {
    var _ := ledger.AddStock(id, quantity);
    resp := ledger.CheckStock(id);
  }

  /** Two adds of the same id leave only the second quantity: add is a set, not a sum. */
  method AddTwice(ledger: Ledger, id: string, first: Int32, second: Int32) returns (resp: StockResponse)
    modifies ledger
    ensures ledger.inventory == old(ledger.inventory)[id := second]
    ensures resp.quantity == second
  {
    var _ := ledger.AddStock(id, first);
    var _ := ledger.AddStock(id, second);
    resp := ledger.CheckStock(id);
  }

  /** After a delete, whether the id was there or not, a read reports (0, not in stock). */
  method DeleteThenCheck(ledger: Ledger, id: string) returns (deleted: DeleteResponse, resp: StockResponse)
    modifies ledger
    ensures deleted.success <==> id in old(ledger.inventory)
    ensures ledger.inventory == old(ledger.inventory) - {id}
    ensures resp == StockResponse(id, 0, false)
  {
    deleted := ledger.DeleteStock(id);
    resp := ledger.CheckStock(id);
  }

  /** A rejected update leaves the ledger, and so every later read, as it was. */
  method UpdateAbsentThenCheck(ledger: Ledger, id: string, quantity: Int32) returns (r: Result<StockResponse>, resp: StockResponse)
    requires id !in ledger.inventory
    modifies ledger
    ensures r == Failure(ProductNotFound)
    ensures ledger.inventory == old(ledger.inventory)
    ensures resp == StockResponse(id, 0, false)
  {
    r := ledger.UpdateStock(id, quantity);
    resp := ledger.CheckStock(id);
  }
}
