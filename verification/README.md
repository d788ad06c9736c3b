# Ledger, catalog and order workflow — a Dafny model

This project models the core of a three-service order system written in Go:

- **Stock ledger** (inventory service). A map from product id to a 32-bit quantity. It has four operations:
  - a read, where an absent id reads as (0, not in stock);
  - set-if-present, which rejects an unknown id;
  - an unconditional upsert;
  - a delete, which reports an absent id in its reply instead of failing.
- **Catalog** (product service). An ordered product list with two faces:
  - a service-to-service interface. `ValidateProducts` matches each requested id against the catalog on its own and answers all-or-nothing. `UpdateProductStock` forwards one ledger update per item and stops at the first error, without rollback;
  - HTTP handlers. Reads enrich each record with the ledger's stock. Each change first calls the ledger and changes the local list only if that call returned.
- **Order workflow** (order service). `CreateOrder` validates the products, sums their prices, builds one stock line of quantity 1 per listed id, sends the stock update and then appends the order. The catalog's success flag for the stock update is dropped. Get, update and delete are linear scans over the order list.

Each service's mutable state is a Dafny class:
- `Inventory.Ledger` holds a `map` field;
- `ProductHttp.ProductService` and `Orders.OrderService` hold `seq` fields;
- `CatalogGrpc.CatalogServer` holds the list it was built with.

The methods state the whole new state. The loops carry invariants and are proved against specification functions. The lemmas state the protocol's properties about those functions:
- `Validate`: the all-or-nothing validation answer;
- `RunFrom`: the stock-update loop;
- `Overwrite`: consecutive ledger writes.

A remote call is a direct call into the callee object plus a `Common.Link` value that stands for the transport:
- `Delivered`;
- `RequestLost`: the callee never ran;
- `ReplyLost`: the callee ran, but the caller saw a transport error, as when a deadline fires after the callee acted.

Loops of remote calls take a `map<nat, Link>`. A call whose index is missing from the map is delivered. Prices and totals are whole cents. Quantities are the newtype `Common.Int32`.

Three behaviours of the code that are easy to misread, modelled as written:
- `GetProducts` zeroes the whole entry when a stock read fails, not only its stock fields.
- `DeleteProduct` removes the product even when the ledger reports that it had no entry.
- `CreateOrder` commits the order whenever the stock-update call returns, even if that update failed.

## Model

| member | source | states |
|---|---|---|
| `Inventory.Ledger.constructor` | inventory-service/grpc/server.go:15-19 | The server's whole state is the map it is given. |
| `Inventory.Ledger.CheckStock` | inventory-service/grpc/server.go:21-28 | Never fails and changes nothing. Reports the stored quantity, or 0 and not-in-stock for an absent id. `inStock` is `quantity > 0`. |
| `Inventory.Ledger.UpdateStock` | inventory-service/grpc/server.go:30-41 | Absent id: "product not found" error and the map is unchanged. Present id: the value is overwritten (a set, not a delta), every other key is unchanged, and the reply echoes the id and quantity consistently. |
| `Inventory.Ledger.AddStock` | inventory-service/grpc/server.go:43-50 | Upsert: afterwards the id maps to the given quantity whether or not it existed. Nothing else changes. |
| `Inventory.Ledger.DeleteStock` | inventory-service/grpc/server.go:52-65 | `success` holds exactly when the id was present. Absent id: "product not found" and the map is unchanged. Present id: only that key is removed. |
| `Inventory.NewSeededLedger` | inventory-service/main.go:137-149 | The registered server starts with exactly "1"→100 and "2"→50. |
| `Inventory.AddThenCheck` | inventory-service/grpc/server.go:21-50 | A read right after `AddStock(id, q)` reports (q, q > 0). |
| `Inventory.AddTwice` | inventory-service/grpc/server.go:43-50 | Two adds to the same id leave only the second quantity. |
| `Inventory.DeleteThenCheck` | inventory-service/grpc/server.go:52-65 | After a delete, the id is absent and a read reports (0, false). The reply says whether it was there. |
| `Inventory.UpdateAbsentThenCheck` | inventory-service/grpc/server.go:30-33 | An update of an unknown id fails, the ledger is unchanged, and a read still reports (0, false). |
| `Common.FirstIndex` | product-service/grpc/server.go:37-47 | The index returned is the first element that matches: it matches and none before it does. No index means no element matches. |
| `Common.FindFirst` | product-service/main.go:135-136 | The handlers' linear scan returns exactly the first matching index, or none. |
| `Common.RemoveAt` | product-service/main.go:230 | The splice drops one element and keeps the others in their order, so the length drops by one. |
| `CatalogGrpc.MatchOf` | product-service/grpc/server.go:37-47 | One requested id contributes at most one product. It contributes nothing exactly when the id is not in the catalog. Otherwise it contributes the first catalog entry with that id, copied as stored. |
| `CatalogGrpc.Matches` | product-service/grpc/server.go:34-49 | The accumulated list is never longer than the request. |
| `CatalogGrpc.MatchesCount` | product-service/grpc/server.go:36-51 | The count check passes exactly when every requested id is in the catalog. |
| `CatalogGrpc.MatchesInRequestOrder` | product-service/grpc/server.go:36-49 | When every id is listed, entry i of the list is the first catalog product with id `ids[i]`. |
| `CatalogGrpc.ValidateMeaning` | product-service/grpc/server.go:33-62 | Valid exactly when every requested id is listed, so the empty request is valid. Invalid carries "some products not found" and no products. Valid has one product per requested id, in request order, each the first match for its id. |
| `CatalogGrpc.ValidateRepeatsDuplicates` | product-service/grpc/server.go:36-49 | A listed id requested twice comes back twice. |
| `CatalogGrpc.CatalogServer.constructor` | product-service/grpc/server.go:26-31 | The server keeps the ledger client and the product list it is given. |
| `CatalogGrpc.CatalogServer.ValidateProducts` | product-service/grpc/server.go:33-62 | The nested scan computes `Validate` over the server's own list. It modifies nothing and makes no ledger call. |
| `CatalogGrpc.Call` | product-service/grpc/server.go:68-77 | One forwarded UpdateStock call never adds or removes a ledger key. It succeeds exactly when it is delivered and the id is in the ledger. It fails with "product not found" exactly when it is delivered and the id is absent, and with a transport error whenever it is not delivered. A lost request, or an unknown id, leaves the ledger as it was; a call that reaches an existing entry sets it to the item's quantity, even when its reply is lost. Every other entry keeps its value. |
| `CatalogGrpc.CatalogServer.UpdateProductStock` | product-service/grpc/server.go:64-83 | The ledger and the reply after the loop are those of `RunFrom` from the old ledger: one UpdateStock per item, in order, with that item's id and quantity. |
| `CatalogGrpc.RunKeepsKeys` | product-service/grpc/server.go:66-78 | The stock-update loop never creates or deletes a ledger entry. |
| `CatalogGrpc.RunLeavesUnnamed` | product-service/grpc/server.go:66-78 | Whether the loop succeeds or stops at a failure, an id that no item names keeps its entry, or stays absent. |
| `CatalogGrpc.RunSucceeds` | product-service/grpc/server.go:66-82 | The loop reports success exactly when every item is delivered and names an existing entry. The ledger is then every item written in order. |
| `CatalogGrpc.OverwriteLastWins` | product-service/grpc/server.go:66-82 | After the writes, each touched id holds the quantity of the last item naming it. |
| `CatalogGrpc.OverwriteUntouched` | product-service/grpc/server.go:66-71 | An id that no item names keeps its entry, or stays absent. |
| `CatalogGrpc.OverwriteUniform` | product-service/grpc/server.go:66-71 | When every item carries the same quantity, every id named by an item ends at that quantity. |
| `CatalogGrpc.RunStopsAtFirstFailure` | product-service/grpc/server.go:72-77 | At the first failing item k the loop stops with that call's error. Items before k stay written, the call for k has its own effect, and items after k are never sent. |
| `ProductHttp.ProductService.constructor` | product-service/main.go:62-74 | The catalog starts as exactly ["1" Laptop 999.99, "2" Mouse 29.99], with zero stock fields. The service-to-service server is built over that same list and the same ledger. |
| `ProductHttp.ProductService.GetProducts` | product-service/main.go:104-129 | Same length and order as the catalog. Entry i is the catalog record with the ledger's quantity and in-stock flag if its stock read got through. Otherwise entry i is the all-zero product. |
| `ProductHttp.ProductService.GetProduct` | product-service/main.go:131-159 | An unknown id gives a 200 with the zero product. A found id gives the first match enriched with its stock. A failed stock read makes the handler crash. |
| `ProductHttp.ProductService.CreateProduct` | product-service/main.go:161-181 | `AddStock(id, quantity)` goes first. If it errors the reply is 500 and the catalog is unchanged. Otherwise the product is appended at the end with no duplicate check. |
| `ProductHttp.ProductService.UpdateProduct` | product-service/main.go:183-210 | Unknown id: 404, with no ledger call. Found: `UpdateStock(path id, body quantity)`. On error the reply is 500 and the catalog is unchanged. On success the first match is replaced wholesale by the body. |
| `ProductHttp.ProductService.DeleteProduct` | product-service/main.go:212-236 | Unknown id: 404, with ledger and catalog untouched. Found: `DeleteStock(id)`. Unless that call errors, the first match is removed and the rest keep their order, even if the ledger had no entry. The reply is 204. |
| `Orders.SumPrices` | order-service/main.go:110-115 | The running sum equals the total of the validated products' prices. |
| `Orders.BuildItems` | order-service/main.go:118-125 | One stock line per listed id, in order, with duplicates repeated, each with quantity 1. |
| `Orders.UnitItems` | order-service/main.go:119-125 | The stock lines as a value: same length as the ids, line i is (`ids[i]`, 1). |
| `Orders.OrderedStockSetToOne` | order-service/main.go:119-127 | When the order's stock update goes through, the ledger keeps its keys. Every ordered product ends at exactly 1, whatever it held and however often it was listed. Every other entry is unchanged. |
| `Orders.OrderService.constructor` | order-service/main.go:45-46 | The order list starts with the one seed order. |
| `Orders.OrderService.GetOrders` | order-service/main.go:62-65 | Returns the whole list in order. |
| `Orders.OrderService.GetOrder` | order-service/main.go:67-77 | Always a 200. The body is the first order with that id, or the zero order when none matches. |
| `Orders.OrderService.CreateOrder` | order-service/main.go:88-135 | Validation transport failure: 500. `Valid=false`: 400 with "some products not found". In both cases the list and ledger are unchanged. Otherwise the total is the sum of the validated prices and the status is "pending". If the stock update was sent, the ledger is as `RunFrom` leaves it. A lost update reply gives 500 and no order. A returned reply, success or not, appends exactly that order at the end. |
| `Orders.OrderService.UpdateOrder` | order-service/main.go:137-151 | The first order with the path id is replaced by the body as sent, so the length is kept. With no match: 404 and no change. |
| `Orders.OrderService.DeleteOrder` | order-service/main.go:153-165 | The first matching order is removed and the rest keep their order. With no match: 404 and no change. |
| `Scenarios.ValidateSeedCatalog` | product-service/grpc/server.go:33-62 | On the seed catalog, ["1","1"] is valid with two copies of product "1". ["1","9"] is invalid. |
| `Scenarios.SeedOrderPriced` | order-service/main.go:99-115 | The seed catalog validates ["1","2"] as itself, with total 1029.98. |
| `Scenarios.SeedOrderStock` | order-service/main.go:119-127 | The stock lines of ["1","2"] set both seed ledger entries to 1, not decremented. |
| `Scenarios.PlaceOrderFromSeeds` | order-service/main.go:88-135 | From all three seeds, an order for ["1","2"] returns total 1029.98 and status "pending". It is appended, and the ledger ends at "1"→1, "2"→1. |
| `Scenarios.PartialStockUpdate` | product-service/grpc/server.go:64-83 | Items ("1",5), ("9",5) on the seed ledger: the reply is failure with "product not found", and "1" stays at 5. |
| `Scenarios.OrderCommittedDespiteStockFailure` | order-service/client/product_client.go:26-31 | The catalog lists "2" but the ledger does not. The stock update fails on its first line and writes nothing, yet the order is committed as "pending". |
| `Scenarios.DeleteUnknownProduct` | product-service/main.go:212-236 | Deleting an id the catalog does not list gives 404 and makes no ledger call: a ledger entry for that same id survives. |

## Left out

- inventory-service/main.go:36-129 defines a second `Server` with the same four methods. Its branches, texts and map writes are identical to the registered ones, but `main` never registers it (line 149 wires the `grpc` package's server). It is modelled once, by `Inventory.Ledger`.
- Orders.SumPrices: prices and totals are exact integer cents. The source adds `float64` values, and its rounding is not modelled.
- Remote errors carry the callee's own text ("product not found") or a fixed transport text. The gRPC status wrapping of error strings and the deadline's own message are not modelled.
- Deadlines are not modelled as time. A call that misses its one-second deadline is a `RequestLost` or `ReplyLost` link.
- Concurrency: every handler runs to completion before the next one starts. The unsynchronised sharing of the ledger map, product list and order list is not modelled.
- The service-to-service catalog server keeps its own copy of the seed list. Go slice aliasing between it and the HTTP list is not modelled: an index assignment or splice on a shared backing array would be visible to the server in the source.
- JSON decoding is not modelled, so request bodies arrive as values. `CreateOrder` rejects an undecodable body with 400 (order-service/main.go:90-93), and that path is not modelled. The other handlers ignore decode errors.
- Health checks, routing, server and connection setup, logging, configuration loading and the API gateway are not modelled.
- `GetProducts` and `GetProduct` reply with the enriched product records only. JSON encoding and the response ids are not modelled.
