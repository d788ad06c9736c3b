/**
  The catalog's service-to-service interface, used by the order service:
  checking that requested product ids exist, and forwarding stock updates to
  the ledger one item at a time.

  Validation matches every requested id on its own against the catalog, so a
  repeated id yields a repeated product, but it answers all-or-nothing: one
  miss and the reply carries no products at all. The stock update is not
  atomic: it stops at the first failing ledger call and keeps the writes made
  before it.
*/
module CatalogGrpc {
  import opened Common
  import opened Model
  import opened Inventory

  const SomeProductsNotFound := "some products not found"

  datatype ValidateResponse = Valid(products: seq<Product>) | Invalid(error: string)

  datatype UpdateStockResponse = StockUpdated | StockUpdateFailed(error: RemoteError)

  /** Some catalog entry has id `id`. */
  predicate Listed(catalog: seq<Product>, id: string)
  {
    exists k | 0 <= k < |catalog| :: catalog[k].id == id
  }

  /** What the scan for one requested id contributes: the first catalog entry with that id, or nothing. */
  function MatchOf(catalog: seq<Product>, id: string): (r: seq<Product>)
    ensures |r| <= 1
    ensures r == [] <==> !Listed(catalog, id)
    ensures r != [] ==> exists k | 0 <= k < |catalog| ::
      r == [catalog[k]] && catalog[k].id == id && forall j | 0 <= j < k :: catalog[j].id != id
  {
    match FirstIndex(catalog, HasId(id))
    case None => []
    case Some(k) => [catalog[k]]
  }

  /** The list the validation loop accumulates before its count check. */
  function Matches(catalog: seq<Product>, ids: seq<string>): (r: seq<Product>)
    ensures |r| <= |ids|
  {
    if ids == [] then []
    else Matches(catalog, ids[..|ids| - 1]) + MatchOf(catalog, ids[|ids| - 1])
  }

  /** The reply of ValidateProducts: the matches if there is one per requested id, otherwise a bare error. */
  function Validate(catalog: seq<Product>, ids: seq<string>): ValidateResponse
  {
    var found := Matches(catalog, ids);
    if |found| != |ids| then Invalid(SomeProductsNotFound) else Valid(found)
  }

  /** The accumulated list has one entry per requested id exactly when every id is listed. */
  lemma {:induction false} MatchesCount(catalog: seq<Product>, ids: seq<string>)
    ensures |Matches(catalog, ids)| == |ids| <==> forall i | 0 <= i < |ids| :: Listed(catalog, ids[i])
  {
    if ids != [] {
      var init, last := ids[..|ids| - 1], ids[|ids| - 1];
      MatchesCount(catalog, init);
      assert forall i | 0 <= i < |init| :: init[i] == ids[i];
      assert |Matches(catalog, ids)| == |Matches(catalog, init)| + |MatchOf(catalog, last)|;
    }
  }

  /** When every id is listed, entry i of the accumulated list is the first catalog product with id ids[i]. */
  lemma {:induction false} MatchesInRequestOrder(catalog: seq<Product>, ids: seq<string>)
    requires forall i | 0 <= i < |ids| :: Listed(catalog, ids[i])
    ensures |Matches(catalog, ids)| == |ids|
    ensures forall i | 0 <= i < |ids| :: MatchOf(catalog, ids[i]) == [Matches(catalog, ids)[i]]
  {
    MatchesCount(catalog, ids);
    if ids != [] {
      var init, last := ids[..|ids| - 1], ids[|ids| - 1];
      assert forall i | 0 <= i < |init| :: init[i] == ids[i];
      MatchesInRequestOrder(catalog, init);
      var found := Matches(catalog, ids);
      assert found == Matches(catalog, init) + MatchOf(catalog, last);
      forall i | 0 <= i < |ids|
        ensures MatchOf(catalog, ids[i]) == [found[i]]
      {
        if i < |init| {
          assert found[i] == Matches(catalog, init)[i];
        } else {
          assert found[i] == MatchOf(catalog, last)[0];
        }
      }
    }
  }

  /** Validation succeeds exactly when every requested id is in the catalog (the empty request included);
      success lists, per requested id and in request order, the first catalog entry with that id;
      failure carries the fixed error and no products. */
  lemma ValidateMeaning(catalog: seq<Product>, ids: seq<string>)
    ensures Validate(catalog, ids).Valid? <==> forall i | 0 <= i < |ids| :: Listed(catalog, ids[i])
    ensures Validate(catalog, ids).Invalid? ==> Validate(catalog, ids) == Invalid(SomeProductsNotFound)
    ensures Validate(catalog, ids).Valid? ==>
      var products := Validate(catalog, ids).products;
      |products| == |ids| &&
      forall i | 0 <= i < |ids| :: products[i].id == ids[i] && MatchOf(catalog, ids[i]) == [products[i]]
  {
    MatchesCount(catalog, ids);
    if forall i | 0 <= i < |ids| :: Listed(catalog, ids[i]) {
      MatchesInRequestOrder(catalog, ids);
    }
  }

  /** A requested id that is listed twice in the request comes back twice. */
  lemma {:induction false} ValidateRepeatsDuplicates(catalog: seq<Product>, id: string)
    requires Listed(catalog, id)
    ensures Validate(catalog, [id, id]).Valid?
    ensures Validate(catalog, [id, id]).products == MatchOf(catalog, id) + MatchOf(catalog, id)
  {
    assert [id, id][..1] == [id];
    assert [id][..0] == [];
    assert Matches(catalog, [id]) == MatchOf(catalog, id);
    assert |MatchOf(catalog, id)| == 1;
  }

  /**
    One ledger UpdateStock call for `item` over `link`, as the catalog sees it:
    the ledger afterwards and the error the catalog gets, if any.
  */
  function Call(inv: map<string, Int32>, item: OrderItem, link: Link): (r: (map<string, Int32>, Option<RemoteError>))
    ensures r.0.Keys == inv.Keys
    ensures r.1.None? <==> link == Delivered && item.productId in inv
    ensures r.1 == Some(Remote(ProductNotFound)) <==> link == Delivered && item.productId !in inv
    ensures link != Delivered ==> r.1 == Some(Transport)
    ensures link == RequestLost || item.productId !in inv ==> r.0 == inv
    ensures link != RequestLost && item.productId in inv ==> r.0[item.productId] == item.quantity
    ensures forall id | id in inv && id != item.productId :: r.0[id] == inv[id]
  {
    if link == RequestLost then (inv, Some(Transport))
    else if item.productId !in inv then
      (inv, Some(if link == ReplyLost then Transport else Remote(ProductNotFound)))
    else
      var updated := inv[item.productId := item.quantity];
      (updated, if link == ReplyLost then Some(Transport) else None)
  }

  /** The item at position j goes through: delivered, and its id is in the ledger. */
  predicate Accepted(inv: map<string, Int32>, items: seq<OrderItem>, links: map<nat, Link>, j: nat)
    requires j < |items|
  {
    LinkAt(links, j) == Delivered && items[j].productId in inv
  }

  /** The ledger and the reply once the update loop has handled items[i..], starting from ledger `inv`. */
  function RunFrom(inv: map<string, Int32>, items: seq<OrderItem>, links: map<nat, Link>, i: nat): (map<string, Int32>, UpdateStockResponse)
    requires i <= |items|
    decreases |items| - i
  {
    if i == |items| then (inv, StockUpdated)
    else
      var step := Call(inv, items[i], LinkAt(links, i));
      if step.1.Some? then (step.0, StockUpdateFailed(step.1.value))
      else RunFrom(step.0, items, links, i + 1)
  }

  /** Every item written to the ledger in order, each overwriting the previous value of its id. */
  function Overwrite(inv: map<string, Int32>, items: seq<OrderItem>): map<string, Int32>
    decreases |items|
  {
    if items == [] then inv
    else Overwrite(inv[items[0].productId := items[0].quantity], items[1..])
  }

  /** An id that no item names keeps its entry, or its absence. */
  lemma {:induction false} OverwriteUntouched(inv: map<string, Int32>, items: seq<OrderItem>, id: string)
    requires forall j | 0 <= j < |items| :: items[j].productId != id
    ensures id in Overwrite(inv, items) <==> id in inv
    ensures id in inv ==> Overwrite(inv, items)[id] == inv[id]
    decreases |items|
  {
    if items != [] {
      OverwriteUntouched(inv[items[0].productId := items[0].quantity], items[1..], id);
    }
  }

  /** An id ends at the quantity of the last item that names it. */
  lemma {:induction false} OverwriteLastWins(inv: map<string, Int32>, items: seq<OrderItem>, k: nat)
    requires k < |items|
    requires forall j | k < j < |items| :: items[j].productId != items[k].productId
    ensures items[k].productId in Overwrite(inv, items)
    ensures Overwrite(inv, items)[items[k].productId] == items[k].quantity
    decreases |items|
  {
    var next := inv[items[0].productId := items[0].quantity];
    if k == 0 {
      OverwriteUntouched(next, items[1..], items[0].productId);
    } else {
      OverwriteLastWins(next, items[1..], k - 1);
    }
  }

  /** When every item carries the same quantity, every named id ends at that quantity. */
  lemma {:induction false} OverwriteUniform(inv: map<string, Int32>, items: seq<OrderItem>, quantity: Int32)
    requires forall j | 0 <= j < |items| :: items[j].quantity == quantity
    ensures forall j | 0 <= j < |items| ::
      items[j].productId in Overwrite(inv, items) && Overwrite(inv, items)[items[j].productId] == quantity
    decreases |items|
  {
    if items != [] {
      var next := inv[items[0].productId := quantity];
      var rest := items[1..];
      OverwriteUniform(next, rest, quantity);
      if forall j | 0 <= j < |rest| :: rest[j].productId != items[0].productId {
        OverwriteUntouched(next, rest, items[0].productId);
      }
      forall j | 0 <= j < |items|
        ensures items[j].productId in Overwrite(inv, items) && Overwrite(inv, items)[items[j].productId] == quantity
      {
        if j > 0 {
          assert items[j] == rest[j - 1];
        }
      }
    }
  }

  /** The update loop never adds or removes a ledger key. */
  lemma {:induction false} RunKeepsKeys(inv: map<string, Int32>, items: seq<OrderItem>, links: map<nat, Link>, i: nat)
    requires i <= |items|
    ensures RunFrom(inv, items, links, i).0.Keys == inv.Keys
    decreases |items| - i
  {
    if i < |items| {
      var step := Call(inv, items[i], LinkAt(links, i));
      if step.1.None? {
        RunKeepsKeys(step.0, items, links, i + 1);
      }
    }
  }

  /** Whether the loop succeeds or stops early, an id that no remaining item names keeps its entry. */
  lemma {:induction false} RunLeavesUnnamed(inv: map<string, Int32>, items: seq<OrderItem>, links: map<nat, Link>, i: nat, id: string)
    requires i <= |items|
    requires forall j | i <= j < |items| :: items[j].productId != id
    ensures id in RunFrom(inv, items, links, i).0 <==> id in inv
    ensures id in inv ==> RunFrom(inv, items, links, i).0[id] == inv[id]
    decreases |items| - i
  {
    if i < |items| {
      var step := Call(inv, items[i], LinkAt(links, i));
      if step.1.None? {
        RunLeavesUnnamed(step.0, items, links, i + 1, id);
      }
    }
  }

  /** The loop reports success exactly when every remaining item goes through, and then the
      ledger holds every item written in order. */
  lemma {:induction false} RunSucceeds(inv: map<string, Int32>, items: seq<OrderItem>, links: map<nat, Link>, i: nat)
    requires i <= |items|
    ensures RunFrom(inv, items, links, i).1 == StockUpdated <==>
      forall j | i <= j < |items| :: Accepted(inv, items, links, j)
    ensures RunFrom(inv, items, links, i).1 == StockUpdated ==>
      RunFrom(inv, items, links, i).0 == Overwrite(inv, items[i..])
    decreases |items| - i
  {
    if i == |items| {
      assert items[i..] == [];
    } else {
      var step := Call(inv, items[i], LinkAt(links, i));
      if step.1.None? {
        RunSucceeds(step.0, items, links, i + 1);
        assert step.0.Keys == inv.Keys;
        assert forall j | i + 1 <= j < |items| :: Accepted(step.0, items, links, j) == Accepted(inv, items, links, j);
        assert items[i..][1..] == items[i + 1..];
      } else {
        assert !Accepted(inv, items, links, i);
      }
    }
  }

  /** When item k is the first that does not go through, the loop stops there with that call's
      error: the items before k stay written, the items after k are never sent. */
  lemma {:induction false} RunStopsAtFirstFailure(inv: map<string, Int32>, items: seq<OrderItem>, links: map<nat, Link>, i: nat, k: nat)
    requires i <= k < |items|
    requires forall j | i <= j < k :: Accepted(inv, items, links, j)
    requires !Accepted(inv, items, links, k)
    ensures var before := Overwrite(inv, items[i..k]);
      var failing := Call(before, items[k], LinkAt(links, k));
      failing.1.Some? && RunFrom(inv, items, links, i) == (failing.0, StockUpdateFailed(failing.1.value))
    decreases k - i
  {
    if i == k {
      assert items[i..k] == [];
    } else {
      assert Accepted(inv, items, links, i);
      var step := Call(inv, items[i], LinkAt(links, i));
      assert forall j | i + 1 <= j <= k :: Accepted(step.0, items, links, j) == Accepted(inv, items, links, j);
      RunStopsAtFirstFailure(step.0, items, links, i + 1, k);
      assert items[i..k][1..] == items[i + 1..k];
    }
  }

  class CatalogServer {
    const ledger: Ledger
    /** The catalog as it was when the server was built; later HTTP changes are not seen here. */
    const products: seq<Product>

    constructor (ledger: Ledger, products: seq<Product>)
      ensures this.ledger == ledger && this.products == products
    {
      this.ledger := ledger;
      this.products := products;
    }

    /** For each requested id in order, the first catalog entry with that id, copied as stored;
        all-or-nothing on the count. No ledger call. */
    method ValidateProducts(ids: seq<string>) returns (resp: ValidateResponse)
      ensures resp == Validate(products, ids)
    {
      var found: seq<Product> := [];
      var i := 0;
      while i < |ids|
        invariant 0 <= i <= |ids|
        invariant found == Matches(products, ids[..i])
      {
        var match_ := FindFirst(products, HasId(ids[i]));
        if match_.Some? {
          found := found + [products[match_.value]];
        }
        assert ids[..i + 1][..i] == ids[..i];
        i := i + 1;
      }
      assert ids[..i] == ids;
      if |found| != |ids| {
        return Invalid(SomeProductsNotFound);
      }
      resp := Valid(found);
    }

    /** One ledger UpdateStock per item, in order, stopping at the first error without undoing
        earlier writes. */
    method UpdateProductStock(items: seq<OrderItem>, links: map<nat, Link>) returns (resp: UpdateStockResponse)
      modifies ledger
      ensures (ledger.inventory, resp) == RunFrom(old(ledger.inventory), items, links, 0)
    {
      var i := 0;
      while i < |items|
        invariant 0 <= i <= |items|
        invariant RunFrom(ledger.inventory, items, links, i) == RunFrom(old(ledger.inventory), items, links, 0)
      {
        var item := items[i];
        var link := LinkAt(links, i);
        var err: Option<RemoteError> := None;
        if link == RequestLost {
          err := Some(Transport);
        } else {
          var r := ledger.UpdateStock(item.productId, item.quantity);
          if link == ReplyLost {
            err := Some(Transport);
          } else if r.Failure? {
            err := Some(Remote(r.error));
          }
        }
        if err.Some? {
          return StockUpdateFailed(err.value);
        }
        i := i + 1;
      }
      resp := StockUpdated;
    }
  }
}
