/**
 * ProductAppService: the catalog (products and their category links) and pricing,
 * one price at a time or in bulk.
 */
module ProductService {
  import opened Results
  import opened Database
  import opened Ledger

  /** CreateProductDto, copied field by field onto the product. The update request is
      taken to carry the same fields. */
  datatype ProductRequest = ProductRequest(
    name: string,
    description: string,
    price: real,
    sku: string,
    categoryIds: seq<int>)

  /** The two bulk-adjustment modes, exactly one of which a call may use. */
  datatype PriceChange = ByPercentage(percentage: real) | ByAmount(amount: real)

  // ---------------------------------------------------------------------------
  // Queries
  // ---------------------------------------------------------------------------

  /** GetAllProductsAsync: every product, or with a category id only those linked to it. */
  function GetAllProducts(s: Store, categoryId: Option<int>): (r: map<int, Product>)
    ensures forall p :: p in r ==> p in s.products && r[p] == s.products[p]
    ensures categoryId.None? ==> r.Keys == s.products.Keys
    ensures categoryId.Some? ==>
              forall p :: p in s.products ==> (p in r <==> Link(p, categoryId.value) in s.links)
  {
    match categoryId
    case None => s.products
    case Some(c) => map p | p in s.products && Link(p, c) in s.links :: s.products[p]
  }

  /** GetProductByIdAsync: it never raises; an absent product maps to no value. */
  function GetProductById(s: Store, id: int): (r: Option<Product>)
    ensures r.Some? <==> id in s.products
    ensures r.Some? ==> r.value == s.products[id]
  {
    if id in s.products then Some(s.products[id]) else None
  }

  // ---------------------------------------------------------------------------
  // Creating and updating products
  // ---------------------------------------------------------------------------

  /** The requested category ids that name an existing category; the others are skipped. */
  function ResolveCategories(categories: map<int, Category>, ids: seq<int>): (r: set<int>)
    ensures forall c :: c in r <==> c in ids && c in categories
  {
    if |ids| == 0 then {}
    else
      assert forall c :: c in ids <==> c == ids[0] || c in ids[1..];
      (if ids[0] in categories then {ids[0]} else {}) + ResolveCategories(categories, ids[1..])
  }

  function LinksFor(productId: int, categoryIds: set<int>): set<Link>
  {
    set c | c in categoryIds :: Link(productId, c)
  }

  /** The product's links with the categories in `categoryIds` and no others. */
  lemma LinksForMembers(productId: int, categoryIds: set<int>)
    ensures forall l :: l in LinksFor(productId, categoryIds) <==> l.productId == productId && l.categoryId in categoryIds
  {
    forall l: Link | l.productId == productId && l.categoryId in categoryIds
      ensures l in LinksFor(productId, categoryIds)
    {
      assert l == Link(productId, l.categoryId);
    }
  }

  /** CreateProductAsync: refuses a SKU already in use, then saves the product with a link
      to every requested category that exists. */
  function CreateProduct(s: Store, dto: ProductRequest, now: Instant): (r: Outcome)
    ensures (exists p :: p in s.products && SameSku(s.products[p].sku, dto.sku)) ==> r == Fail(s, Validation)
    ensures r.status.Failed? ==> r.store == s
    ensures r.status.Done? ==>
              && (forall p :: p in s.products ==> !SameSku(s.products[p].sku, dto.sku))
              && r.store.products.Keys == s.products.Keys + {s.nextProductId}
              && r.store.products[s.nextProductId] == Product(dto.name, dto.description, dto.price, dto.sku, now)
              && (forall p :: p in s.products && p != s.nextProductId ==> r.store.products[p] == s.products[p])
              && (forall c :: c in dto.categoryIds && c in s.categories ==> Link(s.nextProductId, c) in r.store.links)
              && (forall l :: l in r.store.links ==>
                    l in s.links
                    || (l.productId == s.nextProductId && l.categoryId in dto.categoryIds && l.categoryId in s.categories))
              && s.links <= r.store.links
              && r.store.categories == s.categories
              && SameStock(s, r.store)
  {
    if exists p :: p in s.products && SameSku(s.products[p].sku, dto.sku) then Fail(s, Validation)
    else
      LinksForMembers(s.nextProductId, ResolveCategories(s.categories, dto.categoryIds));
      Commit(s, WithNewProduct(s, dto, now))
  }

  /** The store CreateProductAsync hands to SaveChanges: the product under the next key,
      linked to the requested categories that exist. */
  function WithNewProduct(s: Store, dto: ProductRequest, now: Instant): Store
  {
    var id := s.nextProductId;
    s.(products := s.products[id := Product(dto.name, dto.description, dto.price, dto.sku, now)],
       links := s.links + LinksFor(id, ResolveCategories(s.categories, dto.categoryIds)),
       nextProductId := id + 1)
  }

  /** On a valid store, creation with a fresh SKU always succeeds; the new product is
      linked to exactly the existing requested categories; the store stays valid; and
      prices stay non-negative when the request's price passed its range check. */
  lemma CreateProductPreservesValid(s: Store, dto: ProductRequest, now: Instant)
    requires Valid(s)
    ensures var r := CreateProduct(s, dto, now);
            && Valid(r.store)
            && (r.status.Done? <==> forall p :: p in s.products ==> !SameSku(s.products[p].sku, dto.sku))
            && (r.status.Done? ==>
                  forall c :: Link(s.nextProductId, c) in r.store.links <==> c in dto.categoryIds && c in s.categories)
            && (PricesNonNegative(s.products) && dto.price >= 0.01 ==> PricesNonNegative(r.store.products))
  {
    if forall p :: p in s.products ==> !SameSku(s.products[p].sku, dto.sku) {
      NewProductStoreValid(s, dto, now);
      LinksForMembers(s.nextProductId, ResolveCategories(s.categories, dto.categoryIds));
    }
  }

  /** A product with a fresh SKU, linked only to existing categories, breaks no constraint
      and keeps every key below its counter. */
  lemma NewProductStoreValid(s: Store, dto: ProductRequest, now: Instant)
    requires Valid(s)
    requires forall p :: p in s.products ==> !SameSku(s.products[p].sku, dto.sku)
    ensures Valid(WithNewProduct(s, dto, now))
  {
    var id := s.nextProductId;
    var t := WithNewProduct(s, dto, now);
    LinksForMembers(id, ResolveCategories(s.categories, dto.categoryIds));
    assert SkuUnique(t.products) by {
      forall a, b | a in t.products && b in t.products && a != b
        ensures !SameSku(t.products[a].sku, t.products[b].sku)
      {
        if a != id && b != id {
          assert t.products[a] == s.products[a] && t.products[b] == s.products[b];
        }
      }
    }
    assert ForeignKeysHold(t);
  }

  /** "ABC " is refused next to an existing "ABC": the SKU check ignores trailing spaces. */
  lemma PaddedSkuIsRefused(s: Store, dto: ProductRequest, now: Instant, p: int)
    requires p in s.products && s.products[p].sku == "ABC"
    requires dto.sku == "ABC "
    ensures CreateProduct(s, dto, now) == Fail(s, Validation)
  {
    SameSkuIgnoresTrailingSpace("ABC");
    assert "ABC" + " " == dto.sku;
    assert SameSku(s.products[p].sku, dto.sku);
  }

  /** The new product reads back with the request's fields and its creation time. */
  lemma CreatedProductIsFound(s: Store, dto: ProductRequest, now: Instant)
    requires CreateProduct(s, dto, now).status.Done?
    ensures GetProductById(CreateProduct(s, dto, now).store, s.nextProductId)
            == Some(Product(dto.name, dto.description, dto.price, dto.sku, now))
    ensures forall p :: p != s.nextProductId ==>
              GetProductById(CreateProduct(s, dto, now).store, p) == GetProductById(s, p)
  {
  }

  /** UpdateProductAsync: copies the request onto the product, then replaces its category
      links with those of the request that name an existing category. The SKU is not
      checked here; the store's unique index refuses a SKU another product holds. */
  function UpdateProduct(s: Store, id: int, dto: ProductRequest): (r: Outcome)
    ensures id !in s.products ==> r == Fail(s, NotFound)
    ensures (&& id in s.products
             && exists p :: p in s.products && p != id && SameSku(s.products[p].sku, dto.sku))
            ==> r == Fail(s, Conflict)
    ensures r.status.Failed? ==> r.store == s
    ensures r.status.Done? ==>
              && id in s.products
              && r.store.products.Keys == s.products.Keys
              && r.store.products[id]
                 == Product(dto.name, dto.description, dto.price, dto.sku, s.products[id].createdDate)
              && (forall p :: p in s.products && p != id ==> r.store.products[p] == s.products[p])
              && (forall c :: Link(id, c) in r.store.links <==> c in dto.categoryIds && c in s.categories)
              && (forall l :: l in r.store.links && l.productId != id ==> l in s.links)
              && (forall l :: l in s.links && l.productId != id ==> l in r.store.links)
              && r.store.categories == s.categories
              && SameStock(s, r.store)
  {
    if id !in s.products then Fail(s, NotFound)
    else
      LinksForMembers(id, ResolveCategories(s.categories, dto.categoryIds));
      var t := WithUpdatedProduct(s, id, dto);
      assert forall p :: p in s.products && p != id && SameSku(s.products[p].sku, dto.sku) ==>
        SameSku(t.products[p].sku, t.products[id].sku);
      Commit(s, t)
  }

  /** The store an update asks SaveChanges to keep: the request's fields copied onto the
      product, and its links replaced by those to the requested categories that exist. */
  function WithUpdatedProduct(s: Store, id: int, dto: ProductRequest): Store
    requires id in s.products
  {
    var updated := s.products[id].(name := dto.name, description := dto.description,
                                   price := dto.price, sku := dto.sku);
    s.(products := s.products[id := updated],
       links := (set l | l in s.links && l.productId != id)
                + LinksFor(id, ResolveCategories(s.categories, dto.categoryIds)))
  }

  /** An update whose SKU no other product holds breaks no constraint and no invariant. */
  lemma UpdatedStoreValid(s: Store, id: int, dto: ProductRequest)
    requires Valid(s)
    requires id in s.products
    requires forall p :: p in s.products && p != id ==> !SameSku(s.products[p].sku, dto.sku)
    ensures Valid(WithUpdatedProduct(s, id, dto))
  {
    var t := WithUpdatedProduct(s, id, dto);
    LinksForMembers(id, ResolveCategories(s.categories, dto.categoryIds));
    assert SkuUnique(t.products);
    assert ForeignKeysHold(t);
  }

  /** On a valid store, an update of an existing product succeeds exactly when no other
      product holds the requested SKU, and the store stays valid. */
  lemma UpdateProductPreservesValid(s: Store, id: int, dto: ProductRequest)
    requires Valid(s)
    ensures var r := UpdateProduct(s, id, dto);
            && Valid(r.store)
            && (id in s.products ==>
                  (r.status.Done? <==> forall p :: p in s.products && p != id ==> !SameSku(s.products[p].sku, dto.sku)))
            && (PricesNonNegative(s.products) && dto.price >= 0.01 ==> PricesNonNegative(r.store.products))
  {
    if id in s.products && forall p :: p in s.products && p != id ==> !SameSku(s.products[p].sku, dto.sku) {
      UpdatedStoreValid(s, id, dto);
      assert UpdateProduct(s, id, dto) == Outcome(WithUpdatedProduct(s, id, dto), Done);
    }
  }

  /** After an update the category filter of the listing shows the product under
      exactly the requested categories that exist. */
  lemma UpdateProductSetsListing(s: Store, id: int, dto: ProductRequest, c: int)
    requires UpdateProduct(s, id, dto).status.Done?
    ensures id in GetAllProducts(UpdateProduct(s, id, dto).store, Some(c))
            <==> c in dto.categoryIds && c in s.categories
  {
  }

  /** Renaming a product's SKU to "abc" while another product holds "ABC" is refused
      by the unique index, which compares case-insensitively. */
  lemma CaseVariantSkuConflicts(s: Store, id: int, dto: ProductRequest, p: int)
    requires id in s.products && p in s.products && p != id
    requires s.products[p].sku == "ABC" && dto.sku == "abc"
    ensures UpdateProduct(s, id, dto) == Fail(s, Conflict)
  {
    SameSkuIgnoresCase();
    assert SameSku(s.products[p].sku, dto.sku);
  }

  /** An updated product reads back with the request's fields and its original creation
      time; no other product reads differently. */
  lemma UpdatedProductIsFound(s: Store, id: int, dto: ProductRequest)
    requires UpdateProduct(s, id, dto).status.Done?
    ensures GetProductById(UpdateProduct(s, id, dto).store, id)
            == Some(Product(dto.name, dto.description, dto.price, dto.sku, s.products[id].createdDate))
    ensures forall p :: p != id ==> GetProductById(UpdateProduct(s, id, dto).store, p) == GetProductById(s, p)
  {
  }

  // ---------------------------------------------------------------------------
  // Deleting products
  // ---------------------------------------------------------------------------

  /** The stock records of a product. */
  function InventoriesOf(s: Store, productId: int): set<int>
  {
    set i | i in s.inventories && s.inventories[i].productId == productId
  }

  /** DeleteProductAsync: removes the product; the store's cascades remove its stock
      record, that record's ledger rows, and the product's category links. */
  function DeleteProduct(s: Store, id: int): (r: Outcome)
    ensures id !in s.products ==> r == Fail(s, NotFound)
    ensures r.status.Failed? ==> r.store == s
    ensures r.status.Done? ==>
              && id in s.products
              && r.store.products.Keys == s.products.Keys - {id}
              && (forall p :: p in r.store.products ==> r.store.products[p] == s.products[p])
              && (forall i :: i in r.store.inventories <==> i in s.inventories && s.inventories[i].productId != id)
              && (forall i :: i in r.store.inventories ==> r.store.inventories[i] == s.inventories[i])
              && (forall row :: row in r.store.ledger <==>
                    row in s.ledger
                    && !(row.inventoryId in s.inventories && s.inventories[row.inventoryId].productId == id))
              && (forall l :: l in r.store.links <==> l in s.links && l.productId != id)
              && r.store.categories == s.categories
  {
    if id !in s.products then Fail(s, NotFound)
    else
      var gone := InventoriesOf(s, id);
      DropRowsOfMembers(s.ledger, gone);
      Commit(s, s.(products := s.products - {id},
                   inventories := s.inventories - gone,
                   ledger := DropRowsOf(s.ledger, gone),
                   links := set l | l in s.links && l.productId != id))
  }

  /** A deleted product reads as absent, and deleting it again is NotFound. */
  lemma DeletedProductIsGone(s: Store, id: int)
    requires DeleteProduct(s, id).status.Done?
    ensures GetProductById(DeleteProduct(s, id).store, id) == None
    ensures DeleteProduct(DeleteProduct(s, id).store, id) == Fail(DeleteProduct(s, id).store, NotFound)
  {
  }

  /** On a valid store, deleting an existing product always succeeds and leaves the store
      valid, and the surviving ledger still accounts for every surviving quantity. */
  lemma DeleteProductPreservesValid(s: Store, id: int, opening: map<int, int>)
    requires Valid(s)
    ensures var r := DeleteProduct(s, id);
            && Valid(r.store)
            && (r.status.Done? <==> id in s.products)
            && (PricesNonNegative(s.products) ==> PricesNonNegative(r.store.products))
            && (Balanced(s, opening) ==> Balanced(r.store, opening))
  {
    if id in s.products {
      var gone := InventoriesOf(s, id);
      DropRowsOfMembers(s.ledger, gone);
      DropRowsOfIncreasing(s.ledger, gone);
      var t := s.(products := s.products - {id},
                  inventories := s.inventories - gone,
                  ledger := DropRowsOf(s.ledger, gone),
                  links := set l | l in s.links && l.productId != id);
      assert ForeignKeysHold(t) by {
        forall k | 0 <= k < |t.ledger|
          ensures t.ledger[k].inventoryId in t.inventories && t.ledger[k].userId in t.users
        {
          assert t.ledger[k] in s.ledger;
        }
      }
      assert Constraints(t);
      assert KeysBelowCounters(t) by {
        forall k | 0 <= k < |t.ledger|
          ensures t.ledger[k].transactionId < t.nextTransactionId
        {
          assert t.ledger[k] in s.ledger;
        }
      }
      if Balanced(s, opening) {
        forall i | i in t.inventories
          ensures i in opening && t.inventories[i].quantity == opening[i] + SumChanges(RowsFor(t.ledger, i))
        {
          DropRowsOfKeepsHistory(s.ledger, gone, i);
        }
      }
    }
  }

  // ---------------------------------------------------------------------------
  // Pricing
  // ---------------------------------------------------------------------------

  /** AdjustPriceAsync: a negative price is refused before the product is looked up; zero
      is allowed; otherwise only that product's price changes. */
  function AdjustPrice(s: Store, id: int, newPrice: real): (r: Outcome)
    ensures newPrice < 0.0 ==> r == Fail(s, Validation)
    ensures newPrice >= 0.0 && id !in s.products ==> r == Fail(s, NotFound)
    ensures r.status.Failed? ==> r.store == s
    ensures r.status.Done? ==>
              && id in s.products
              && r.store.products.Keys == s.products.Keys
              && r.store.products[id].price == newPrice
              && r.store.products[id] == s.products[id].(price := r.store.products[id].price)
              && (forall p :: p in s.products && p != id ==> r.store.products[p] == s.products[p])
              && r.store.categories == s.categories && r.store.links == s.links
              && SameStock(s, r.store)
  {
    if newPrice < 0.0 then Fail(s, Validation)
    else if id !in s.products then Fail(s, NotFound)
    else Commit(s, s.(products := s.products[id := s.products[id].(price := newPrice)]))
  }

  /** On a valid store, any non-negative price (zero included) for an existing product is
      saved, and prices stay non-negative. */
  lemma AdjustPricePreservesValid(s: Store, id: int, newPrice: real)
    requires Valid(s)
    ensures var r := AdjustPrice(s, id, newPrice);
            && Valid(r.store)
            && (r.status.Done? <==> newPrice >= 0.0 && id in s.products)
            && (PricesNonNegative(s.products) ==> PricesNonNegative(r.store.products))
  {
    if newPrice >= 0.0 && id in s.products {
      var t := s.(products := s.products[id := s.products[id].(price := newPrice)]);
      assert SkuUnique(t.products);
      assert Constraints(t);
    }
  }

  /** The bulk mode a call asks for: exactly one of the two amounts must be given. */
  function BulkMode(percentage: Option<real>, fixedAmount: Option<real>): (r: Result<PriceChange>)
    ensures r.Err? <==> percentage.None? == fixedAmount.None?
    ensures r.Err? ==> r.error == Validation
    ensures r.Ok? && percentage.Some? ==> r.value == ByPercentage(percentage.value)
    ensures r.Ok? && fixedAmount.Some? ==> r.value == ByAmount(fixedAmount.value)
  {
    if percentage.None? && fixedAmount.None? then Err(Validation)
    else if percentage.Some? && fixedAmount.Some? then Err(Validation)
    else if percentage.Some? then Ok(ByPercentage(percentage.value))
    else Ok(ByAmount(fixedAmount.value))
  }

  function Reprice(price: real, change: PriceChange): real
  {
    match change
    case ByPercentage(percentage) => price + price * (percentage / 100.0)
    case ByAmount(amount) => price + amount
  }

  /** The mode a valid call names reprices by `p + p * percentage / 100` or `p + amount`. */
  lemma RepriceFollowsRequest(percentage: Option<real>, fixedAmount: Option<real>)
    requires percentage.None? != fixedAmount.None?
    ensures forall price: real :: Reprice(price, BulkMode(percentage, fixedAmount).value)
              == if percentage.Some? then price + price * percentage.value / 100.0 else price + fixedAmount.value
  {
  }

  /** The products a bulk call matches: those whose id is in the list. */
  function Matched(s: Store, ids: seq<int>): set<int>
  {
    set p | p in s.products && p in ids
  }

  /** The catalog with every matched product repriced and every other product as it was. */
  function RepriceAll(products: map<int, Product>, matched: set<int>, change: PriceChange): (r: map<int, Product>)
    ensures r.Keys == products.Keys
    ensures forall p :: p in products && p in matched ==>
              r[p] == products[p].(price := Reprice(products[p].price, change))
    ensures forall p :: p in products && p !in matched ==> r[p] == products[p]
  {
    map p | p in products ::
      if p in matched then products[p].(price := Reprice(products[p].price, change)) else products[p]
  }

  /** AdjustBulkPricesAsync: checks the mode, refuses a list that matches no product,
      reprices every matched product once, and saves nothing if any new price would be
      negative. */
  function AdjustBulkPrices(s: Store, ids: seq<int>, percentage: Option<real>, fixedAmount: Option<real>): (r: Outcome)
    ensures percentage.None? == fixedAmount.None? ==> r == Fail(s, Validation)
    ensures (&& percentage.None? != fixedAmount.None?
             && forall p :: p in ids ==> p !in s.products)
            ==> r == Fail(s, NotFound)
    ensures (&& BulkMode(percentage, fixedAmount).Ok?
             && exists p :: p in ids && p in s.products
                            && Reprice(s.products[p].price, BulkMode(percentage, fixedAmount).value) < 0.0)
            ==> r == Fail(s, Validation)
    ensures r.status.Failed? ==> r.store == s
    ensures r.status.Done? ==>
              && percentage.None? != fixedAmount.None?
              && (exists p :: p in ids && p in s.products)
              && r.store.products.Keys == s.products.Keys
              && (forall p :: p in s.products ==>
                    r.store.products[p] == s.products[p].(price := r.store.products[p].price))
              && (percentage.Some? ==>
                    forall p :: p in s.products && p in ids ==>
                      r.store.products[p].price
                      == s.products[p].price + s.products[p].price * percentage.value / 100.0)
              && (fixedAmount.Some? ==>
                    forall p :: p in s.products && p in ids ==>
                      r.store.products[p].price == s.products[p].price + fixedAmount.value)
              && (forall p :: p in s.products && p !in ids ==> r.store.products[p] == s.products[p])
              && (forall p :: p in s.products && p in ids ==> r.store.products[p].price >= 0.0)
              && r.store.categories == s.categories && r.store.links == s.links
              && SameStock(s, r.store)
  {
    match BulkMode(percentage, fixedAmount)
    case Err(e) => Fail(s, e)
    case Ok(change) =>
      var matched := Matched(s, ids);
      assert forall p :: p in ids && p in s.products ==> p in matched;
      RepriceFollowsRequest(percentage, fixedAmount);
      if matched == {} then Fail(s, NotFound)
      else
        NonEmptyHasMember(matched);
        if exists p :: p in matched && Reprice(s.products[p].price, change) < 0.0 then Fail(s, Validation)
        else Commit(s, s.(products := RepriceAll(s.products, matched, change)))
  }

  /** If any matched product's new price would be negative the call is refused and no
      price at all is saved, whichever mode it uses. */
  lemma NegativeBulkPriceSavesNothing(
    s: Store, ids: seq<int>, percentage: Option<real>, fixedAmount: Option<real>, p: int)
    requires percentage.None? != fixedAmount.None?
    requires p in ids && p in s.products
    requires percentage.Some? ==> s.products[p].price + s.products[p].price * percentage.value / 100.0 < 0.0
    requires fixedAmount.Some? ==> s.products[p].price + fixedAmount.value < 0.0
    ensures AdjustBulkPrices(s, ids, percentage, fixedAmount) == Fail(s, Validation)
  {
    var change := BulkMode(percentage, fixedAmount).value;
    if percentage.Some? {
      PercentageRepriceNegative(s.products[p].price, percentage.value);
    }
    assert Reprice(s.products[p].price, change) < 0.0;
    assert p in Matched(s, ids);
  }

  /** A percentage that takes `p + p * percentage / 100` below zero takes the repriced
      price below zero. */
  lemma PercentageRepriceNegative(price: real, x: real)
    requires price + price * x / 100.0 < 0.0
    ensures Reprice(price, ByPercentage(x)) < 0.0
  {
    assert price * (x / 100.0) == price * x / 100.0;
  }

  /** Repeating an id, or listing the ids in another order, changes nothing: each matched
      product is repriced once. */
  lemma BulkAdjustmentDependsOnlyOnIdSet(
    s: Store, ids: seq<int>, others: seq<int>, percentage: Option<real>, fixedAmount: Option<real>)
    requires forall p :: p in ids <==> p in others
    ensures AdjustBulkPrices(s, ids, percentage, fixedAmount) == AdjustBulkPrices(s, others, percentage, fixedAmount)
  {
    forall p ensures p in Matched(s, ids) <==> p in Matched(s, others) {
    }
    assert Matched(s, ids) == Matched(s, others);
  }

  /** A bulk call never leaves a valid store invalid, and never makes a price negative. */
  lemma AdjustBulkPricesPreservesValid(
    s: Store, ids: seq<int>, percentage: Option<real>, fixedAmount: Option<real>)
    requires Valid(s)
    ensures Valid(AdjustBulkPrices(s, ids, percentage, fixedAmount).store)
    ensures PricesNonNegative(s.products) ==>
              PricesNonNegative(AdjustBulkPrices(s, ids, percentage, fixedAmount).store.products)
  {
    var mode := BulkMode(percentage, fixedAmount);
    if mode.Ok? {
      RepricedStoreMeetsConstraints(s, Matched(s, ids), mode.value);
    }
  }

  /** Repricing touches no SKU and no key, so the store accepts it. */
  lemma RepricedStoreMeetsConstraints(s: Store, matched: set<int>, change: PriceChange)
    requires Valid(s)
    ensures Valid(s.(products := RepriceAll(s.products, matched, change)))
  {
    var t := s.(products := RepriceAll(s.products, matched, change));
    assert forall p :: p in t.products ==> t.products[p].sku == s.products[p].sku;
    assert SkuUnique(t.products);
    assert ForeignKeysHold(t);
  }

  /** With prices non-negative and the amounts inside the ranges the request validation
      admits (a percentage of at least -100, a fixed amount of at least 0.01), a valid
      call that names one mode and matches a product always succeeds. */
  lemma BulkAdjustmentWithinRangesSucceeds(
    s: Store, ids: seq<int>, percentage: Option<real>, fixedAmount: Option<real>)
    requires Valid(s)
    requires PricesNonNegative(s.products)
    requires percentage.None? != fixedAmount.None?
    requires percentage.Some? ==> -100.0 <= percentage.value <= 100.0
    requires fixedAmount.Some? ==> fixedAmount.value >= 0.01
    requires exists p :: p in ids && p in s.products
    ensures AdjustBulkPrices(s, ids, percentage, fixedAmount).status.Done?
  {
    var change := BulkMode(percentage, fixedAmount).value;
    var matched := Matched(s, ids);
    forall p | p in matched ensures Reprice(s.products[p].price, change) >= 0.0 {
      RepriceWithinRangesNonNegative(s.products[p].price, change);
    }
    RepricedStoreMeetsConstraints(s, matched, change);
    var p :| p in ids && p in s.products;
    assert p in matched;
  }

  /** A non-negative price stays non-negative under a change inside the request ranges. */
  lemma RepriceWithinRangesNonNegative(price: real, change: PriceChange)
    requires price >= 0.0
    requires change.ByPercentage? ==> -100.0 <= change.percentage
    requires change.ByAmount? ==> change.amount >= 0.01
    ensures Reprice(price, change) >= 0.0
  {
    if change.ByPercentage? {
      var f := 1.0 + change.percentage / 100.0;
      assert f >= 0.0;
      assert Reprice(price, change) == price * f;
    }
  }

  /** A percentage of -100 takes every matched product's price to zero, whatever it was,
      and leaves every other product as it was. */
  lemma FullDiscountZeroesPrices(s: Store, ids: seq<int>)
    requires Valid(s)
    requires exists p :: p in ids && p in s.products
    ensures var r := AdjustBulkPrices(s, ids, Some(-100.0), None);
            && r.status.Done?
            && (forall p :: p in s.products && p in ids ==> r.store.products[p].price == 0.0)
            && (forall p :: p in s.products && p !in ids ==> r.store.products[p] == s.products[p])
  {
    var change := ByPercentage(-100.0);
    var matched := Matched(s, ids);
    forall p | p in matched ensures Reprice(s.products[p].price, change) == 0.0 {
    }
    RepricedStoreMeetsConstraints(s, matched, change);
    var p :| p in ids && p in s.products;
    assert p in matched;
  }

  /** A change of zero percent saves every price as it was: the call succeeds and the
      store is the one it started from. */
  lemma ZeroPercentKeepsStore(s: Store, ids: seq<int>)
    requires Valid(s)
    requires PricesNonNegative(s.products)
    requires exists p :: p in ids && p in s.products
    ensures AdjustBulkPrices(s, ids, Some(0.0), None) == Outcome(s, Done)
  {
    var matched := Matched(s, ids);
    var p :| p in ids && p in s.products;
    assert p in matched;
    ZeroPercentRepricesNothing(s.products, matched);
  }

  /** Zero percent leaves every price, and so the catalog, as it was. */
  lemma ZeroPercentRepricesNothing(products: map<int, Product>, matched: set<int>)
    ensures forall p :: p in products ==> Reprice(products[p].price, ByPercentage(0.0)) == products[p].price
    ensures RepriceAll(products, matched, ByPercentage(0.0)) == products
  {
    var repriced := RepriceAll(products, matched, ByPercentage(0.0));
    forall q | q in products ensures repriced[q] == products[q] {
      assert Reprice(products[q].price, ByPercentage(0.0)) == products[q].price;
    }
  }

  /** Repricing {100, 50} by ten percent gives {110, 55}. */
  lemma BulkPercentageExample(s: Store)
    requires s.products.Keys == {1, 2}
    requires s.products[1].price == 100.0 && s.products[2].price == 50.0
    requires Valid(s)
    ensures var r := AdjustBulkPrices(s, [1, 2], Some(10.0), None);
            r.status.Done? && r.store.products[1].price == 110.0 && r.store.products[2].price == 55.0
  {
    assert 1 in [1, 2] && 1 in s.products;
    BulkAdjustmentWithinRangesSucceeds(s, [1, 2], Some(10.0), None);
  }
}
