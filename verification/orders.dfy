/**
  The order service: a list of orders and the order-creation workflow that
  validates the requested products with the catalog, prices the order, asks
  the catalog to set the stock of every listed product to 1, and only then
  appends the order. The reply of the stock update is read for transport
  errors only: a stock update the catalog reports as failed still lets the
  order through.
*/
module Orders {
  import opened Common
  import opened Model
  import opened Inventory
  import opened CatalogGrpc

  const Pending := "pending"
  const OrderNotFoundText := "Order not found"

  /** The order the service starts with (its status is left empty). */
  const SeedOrders: seq<Order> := [Order("1", ["1", "2"], 102998, "")]

  /** The sum of the products' prices. */
  function Total(products: seq<Product>): Cents
  {
    if products == [] then 0 else Total(products[..|products| - 1]) + products[|products| - 1].price
  }

  /** The stock lines for an order: one per listed product id, in order, each with quantity 1. */
  function UnitItems(ids: seq<string>): (items: seq<OrderItem>)
    ensures |items| == |ids|
    ensures forall i | 0 <= i < |ids| :: items[i] == OrderItem(ids[i], 1)
  {
    seq(|ids|, i requires 0 <= i < |ids| => OrderItem(ids[i], 1))
  }

  /** A stock update for an order that goes through leaves every ordered product at exactly 1,
      whatever it held before and however often it was listed, and every other entry as it was. */
  lemma {:induction false} OrderedStockSetToOne(inv: map<string, Int32>, ids: seq<string>, links: map<nat, Link>)
    requires RunFrom(inv, UnitItems(ids), links, 0).1 == StockUpdated
    ensures var stock := RunFrom(inv, UnitItems(ids), links, 0).0;
      stock.Keys == inv.Keys
      && (forall i | 0 <= i < |ids| :: ids[i] in stock && stock[ids[i]] == 1)
      && (forall id | id in inv && id !in ids :: stock[id] == inv[id])
  {
    var items := UnitItems(ids);
    RunKeepsKeys(inv, items, links, 0);
    RunSucceeds(inv, items, links, 0);
    assert items[0..] == items;
    OverwriteUniform(inv, items, 1);
    forall id | id in inv && id !in ids
      ensures Overwrite(inv, items)[id] == inv[id]
    {
      assert forall j | 0 <= j < |items| :: items[j].productId == ids[j];
      OverwriteUntouched(inv, items, id);
    }
  }

  /** Sum the validated products' prices in the order they were returned. */
  method SumPrices(products: seq<Product>) returns (total: Cents)
    ensures total == Total(products)
  {
    total := 0;
    for i := 0 to |products|
      invariant total == Total(products[..i])
    {
      assert products[..i + 1][..i] == products[..i];
      total := total + products[i].price;
    }
    assert products[..|products|] == products;
  }

  /** Build the stock lines: duplicates in `ids` give repeated lines, and no line takes its
      quantity from the request. */
  method BuildItems(ids: seq<string>) returns (items: seq<OrderItem>)
    ensures |items| == |ids|
    ensures forall i | 0 <= i < |ids| :: items[i].productId == ids[i] && items[i].quantity == 1
  {
    items := [];
    for i := 0 to |ids|
      invariant |items| == i
      invariant forall k | 0 <= k < i :: items[k] == OrderItem(ids[k], 1)
    {
      items := items + [OrderItem(ids[i], 1)];
    }
  }

  /** The order the workflow commits: the client's order with a server-computed total and status "pending". */
  function Placed(order: Order, validated: seq<Product>): Order
  {
    order.(total := Total(validated), status := Pending)
  }

  class OrderService {
    var orders: seq<Order>
    const catalog: CatalogServer

    constructor (catalog: CatalogServer)
      ensures orders == SeedOrders && this.catalog == catalog
    {
      this.catalog := catalog;
      orders := SeedOrders;
    }

    /** The whole list, in insertion order. */
    method GetOrders() returns (reply: HttpReply<seq<Order>>)
      ensures reply.Ok? && reply.body == orders
    {
      reply := Ok(orders);
    }

    /** The first order with `id`, or a zero order (still a 200) when none has it. */
    method GetOrder(id: string) returns (reply: HttpReply<Order>)
      ensures reply.Ok?
      ensures (exists k | 0 <= k < |orders| :: orders[k].id == id) ==>
        exists k | 0 <= k < |orders| ::
          reply.body == orders[k] && orders[k].id == id && forall j | 0 <= j < k :: orders[j].id != id
      ensures (forall k | 0 <= k < |orders| :: orders[k].id != id) ==> reply.body == ZeroOrder
    {
      var found := FindFirst(orders, OrderHasId(id));
      if found.None? {
        return Ok(ZeroOrder);
      }
      reply := Ok(orders[found.value]);
    }

    /**
      Validate, price, update stock, append. A transport failure of either catalog call gives 500
      and an invalid product list gives 400 with the catalog's text; in all three cases the order
      list is unchanged. Once the stock update has been delivered the ledger carries its effects
      (possibly partial), and if its reply arrives the order is appended whatever it says.
    */
    method CreateOrder(order: Order, validateLink: Link, updateLink: Link, stockLinks: map<nat, Link>)
      returns (reply: HttpReply<Order>)
      modifies this, catalog.ledger
      ensures validateLink != Delivered ==>
        reply == Error(StatusInternalServerError, TransportMessage)
        && orders == old(orders) && catalog.ledger.inventory == old(catalog.ledger.inventory)
      ensures validateLink == Delivered && Validate(catalog.products, order.productIds).Invalid? ==>
        reply == Error(StatusBadRequest, SomeProductsNotFound)
        && orders == old(orders) && catalog.ledger.inventory == old(catalog.ledger.inventory)
      ensures validateLink == Delivered && Validate(catalog.products, order.productIds).Valid? ==>
        var placed := Placed(order, Validate(catalog.products, order.productIds).products);
        var stock := RunFrom(old(catalog.ledger.inventory), UnitItems(order.productIds), stockLinks, 0);
        && catalog.ledger.inventory == (if updateLink == RequestLost then old(catalog.ledger.inventory) else stock.0)
        && (updateLink == Delivered ==> reply == Ok(placed) && orders == old(orders) + [placed])
        && (updateLink != Delivered ==>
             reply == Error(StatusInternalServerError, TransportMessage) && orders == old(orders))
    {
      if validateLink != Delivered {
        return Error(StatusInternalServerError, Describe(Transport));
      }
      var resp := catalog.ValidateProducts(order.productIds);
      if resp.Invalid? {
        return Error(StatusBadRequest, resp.error);
      }

      var total := SumPrices(resp.products);
      var placed := order.(total := total, status := Pending);

      var items := BuildItems(order.productIds);
      assert items == UnitItems(order.productIds);

      if updateLink == RequestLost {
        return Error(StatusInternalServerError, Describe(Transport));
      }
      // The catalog's answer is dropped: only a transport error stops the order.
      var _ := catalog.UpdateProductStock(items, stockLinks);
      if updateLink == ReplyLost {
        return Error(StatusInternalServerError, Describe(Transport));
      }

      orders := orders + [placed];
      reply := Ok(placed);
    }

    /** Replace the first order with `id` by the body as sent; 404 and no change when none has it. */
    method UpdateOrder(id: string, order: Order) returns (reply: HttpReply<Order>)
      modifies this
      ensures FirstIndex(old(orders), OrderHasId(id)).None? ==>
        reply == Error(StatusNotFound, OrderNotFoundText) && orders == old(orders)
      ensures FirstIndex(old(orders), OrderHasId(id)).Some? ==>
        reply == Ok(order) && orders == old(orders)[FirstIndex(old(orders), OrderHasId(id)).value := order]
    {
      var found := FindFirst(orders, OrderHasId(id));
      if found.None? {
        return Error(StatusNotFound, OrderNotFoundText);
      }
      orders := orders[found.value := order];
      reply := Ok(order);
    }

    /** Remove the first order with `id`, keeping the rest in order; 404 and no change when none has it. */
    method DeleteOrder(id: string) returns (reply: HttpReply<Order>)
      modifies this
      ensures FirstIndex(old(orders), OrderHasId(id)).None? ==>
        reply == Error(StatusNotFound, OrderNotFoundText) && orders == old(orders)
      ensures FirstIndex(old(orders), OrderHasId(id)).Some? ==>
        reply == NoContent && orders == RemoveAt(old(orders), FirstIndex(old(orders), OrderHasId(id)).value)
    {
      var found := FindFirst(orders, OrderHasId(id));
      if found.None? {
        return Error(StatusNotFound, OrderNotFoundText);
      }
      orders := RemoveAt(orders, found.value);
      reply := NoContent;
    }
  }
}
