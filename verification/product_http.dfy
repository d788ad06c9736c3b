/**
  The catalog's HTTP handlers over its product list. Reads enrich each
  record with the ledger's live quantity; every change first makes the
  matching ledger call and touches the local list only if that call did not
  return an error. There is no rollback in either direction: a ledger write
  whose reply is lost leaves the ledger changed and the list unchanged.
*/
module ProductHttp {
  import opened Common
  import opened Model
  import opened Inventory
  import opened CatalogGrpc

  const ProductNotFoundText := "Product not found"

  /** The two products the service starts with; stock fields are not stored, so they are zero. */
  const SeedCatalog: seq<Product> := [
    Product("1", "Laptop", 99999, false, 0),
    Product("2", "Mouse", 2999, false, 0)
  ]

  class ProductService {
    var products: seq<Product>
    const ledger: Ledger
    /** The service-to-service server, built over the seed list at start-up. */
    const grpc: CatalogServer

    constructor (ledger: Ledger)
      ensures products == SeedCatalog
      ensures this.ledger == ledger
      ensures fresh(grpc) && grpc.ledger == ledger && grpc.products == SeedCatalog
    {
      this.ledger := ledger;
      products := SeedCatalog;
      grpc := new CatalogServer(ledger, SeedCatalog);
    }

    /** One entry per catalog product, same order: the record with the ledger's stock when that
        product's CheckStock call gets through, a wholly zero record when it does not. */
    method GetProducts(links: map<nat, Link>) returns (r: seq<Product>)
      ensures |r| == |products|
      ensures forall i | 0 <= i < |products| ::
        r[i] == if LinkAt(links, i) == Delivered then WithStock(products[i], ledger.Quantity(products[i].id))
                else ZeroProduct
    {
      var enriched := new Product[|products|](_ => ZeroProduct);
      for i := 0 to |products|
        invariant forall k | 0 <= k < i ::
          enriched[k] == if LinkAt(links, k) == Delivered then WithStock(products[k], ledger.Quantity(products[k].id))
                         else ZeroProduct
        invariant forall k | i <= k < |products| :: enriched[k] == ZeroProduct
      {
        if LinkAt(links, i) == Delivered {
          var product := products[i];
          var resp := ledger.CheckStock(product.id);
          enriched[i] := Product(product.id, product.name, product.price, resp.inStock, resp.quantity);
        }
      }
      r := enriched[..];
    }

    /** The first product with `id`, enriched with its stock; a zero record when no product has
        that id; a crash when the stock read fails, since the handler then reads a nil reply. */
    method GetProduct(id: string, link: Link) returns (reply: HttpReply<Product>)
      ensures FirstIndex(products, HasId(id)).None? ==> reply == Ok(ZeroProduct)
      ensures FirstIndex(products, HasId(id)).Some? ==>
        var i := FirstIndex(products, HasId(id)).value;
        reply == if link == Delivered then Ok(WithStock(products[i], ledger.Quantity(id))) else Crash
    {
      var found := FindFirst(products, HasId(id));
      if found.None? {
        return Ok(ZeroProduct);
      }
      var item := products[found.value];
      if link != Delivered {
        return Crash;
      }
      var resp := ledger.CheckStock(item.id);
      reply := Ok(Product(item.id, item.name, item.price, resp.inStock, resp.quantity));
    }

    /** AddStock first; append the product, duplicates allowed, only when that call returns. */
    method CreateProduct(product: Product, link: Link) returns (reply: HttpReply<Product>)
      modifies this, ledger
      ensures ledger.inventory ==
        if link == RequestLost then old(ledger.inventory) else old(ledger.inventory)[product.id := product.quantity]
      ensures link == Delivered ==> reply == Ok(product) && products == old(products) + [product]
      ensures link != Delivered ==>
        reply == Error(StatusInternalServerError, TransportMessage) && products == old(products)
    {
      if link == RequestLost {
        return Error(StatusInternalServerError, Describe(Transport));
      }
      var _ := ledger.AddStock(product.id, product.quantity);
      if link == ReplyLost {
        return Error(StatusInternalServerError, Describe(Transport));
      }
      products := products + [product];
      reply := Ok(product);
    }

    /** Find `id`; 404 without any ledger call when absent. Otherwise UpdateStock(id, body quantity),
        and only when that returns, replace the entry wholesale with the body (whose id may differ). */
    method UpdateProduct(id: string, product: Product, link: Link) returns (reply: HttpReply<Product>)
      modifies this, ledger
      ensures FirstIndex(old(products), HasId(id)).None? ==>
        reply == Error(StatusNotFound, ProductNotFoundText) && products == old(products)
        && ledger.inventory == old(ledger.inventory)
      ensures FirstIndex(old(products), HasId(id)).Some? ==>
        var i := FirstIndex(old(products), HasId(id)).value;
        var call := Call(old(ledger.inventory), OrderItem(id, product.quantity), link);
        ledger.inventory == call.0 &&
        if call.1.None? then reply == Ok(product) && products == old(products)[i := product]
        else reply == Error(StatusInternalServerError, Describe(call.1.value)) && products == old(products)
    {
      var found := FindFirst(products, HasId(id));
      if found.None? {
        return Error(StatusNotFound, ProductNotFoundText);
      }
      if link == RequestLost {
        return Error(StatusInternalServerError, Describe(Transport));
      }
      var r := ledger.UpdateStock(id, product.quantity);
      if link == ReplyLost {
        return Error(StatusInternalServerError, Describe(Transport));
      }
      if r.Failure? {
        return Error(StatusInternalServerError, r.error);
      }
      products := products[found.value := product];
      reply := Ok(product);
    }

    /** Find `id`; 404 without any ledger call when absent. Otherwise DeleteStock(id), and unless that
        call errors, remove the entry keeping the others in order, even when the ledger answered
        that it had no such entry. */
    method DeleteProduct(id: string, link: Link) returns (reply: HttpReply<Product>)
      modifies this, ledger
      ensures FirstIndex(old(products), HasId(id)).None? ==>
        reply == Error(StatusNotFound, ProductNotFoundText) && products == old(products)
        && ledger.inventory == old(ledger.inventory)
      ensures FirstIndex(old(products), HasId(id)).Some? ==>
        var i := FirstIndex(old(products), HasId(id)).value;
        ledger.inventory == (if link == RequestLost then old(ledger.inventory) else old(ledger.inventory) - {id}) &&
        if link == Delivered then reply == NoContent && products == RemoveAt(old(products), i)
        else reply == Error(StatusInternalServerError, TransportMessage) && products == old(products)
    {
      var found := FindFirst(products, HasId(id));
      if found.None? {
        return Error(StatusNotFound, ProductNotFoundText);
      }
      if link == RequestLost {
        return Error(StatusInternalServerError, Describe(Transport));
      }
      var _ := ledger.DeleteStock(id);
      if link == ReplyLost {
        return Error(StatusInternalServerError, Describe(Transport));
      }
      products := RemoveAt(products, found.value);
      reply := NoContent;
    }
  }
}
