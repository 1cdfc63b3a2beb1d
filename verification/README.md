# PIMS inventory core in Dafny

A model of the three application services of the PIMS product and inventory system:

- **ProductAppService**:
  - the product catalog with its product–category links;
  - single-product price changes;
  - bulk repricing by a percentage or by a fixed amount.
- **InventoryAppService**:
  - one stock record per product;
  - the transactional "adjust quantity and append one ledger row" operation;
  - the stock and ledger queries;
  - the low-stock scan.
- **CategoryAppService**: create, read, update and delete of categories.

The relational store is one immutable `Store` value (`database.dfy`):

- the Categories, Products and Inventories tables are maps keyed by their identity columns;
- the ProductCategories association table is a set of `Link` pairs;
- the InventoryTransactions ledger is a sequence in insertion order;
- the Users table is the set of user ids;
- each table's identity column is a counter above every key in use, so each new key is fresh.

Every mutating operation returns an `Outcome`: the store afterwards, together with `Done` or `Failed(error)`, where the error is `NotFound`, `Validation` or `Conflict`. Every such operation promises that a failure leaves the store's rows exactly as they were; the model also leaves the identity counters as they were (see "## Left out"). This models the services' exceptions, the explicit transaction in AdjustInventoryAsync, and SaveChanges' all-or-nothing behaviour.

`Commit` stands for SaveChanges. The store accepts the changed state only when it meets its own constraints, and otherwise refuses with `Conflict`. Those constraints are:

- the unique SKU index, which compares SKUs as the server does: trailing spaces ignored, ASCII letters compared without regard to case;
- the unique index on Inventories.ProductID;
- every foreign key, including the ledger's required UserID.

The cascades the schema declares are written out in the delete operations:

- product → inventory → ledger rows;
- product → links;
- category → links.

On top of the store's constraints, `Valid` adds three invariants the services are meant to keep:

- no stock level is negative;
- ledger rows are in identity order;
- every key lies below its table's counter.

`Ledger.Balanced` is the accounting invariant: each quantity equals its opening quantity plus the net change of the ledger rows recorded against it.

Modules:

- `Results`: `Error`, `Option`, `Result`.
- `Database`: entities, the store, its constraints, `Commit`, the invariants and 32-bit arithmetic.
- `Ledger`: the per-inventory view of the ledger, the cascade filter and the balance invariant.
- `InventoryService`, `ProductService`, `CategoryService`: one per application service.

Clock readings (`DateTime.UtcNow`) are parameters. The low-stock scan returns its alerts instead of writing them to the console.

Where the services' intent and their code disagree, the model follows the code:

- `GetProductByIdAsync` does not raise on an absent product; it yields nothing, so `GetProductById` returns an `Option`.
- `UpdateProductAsync` does not check the SKU itself. A clash with another product's SKU surfaces only from the unique index, as `Conflict`.
- `CreateInventoryAsync` does not look for an existing stock record of the product. A second one is refused by the unique index, as `Conflict`.

## Model

| member | source | states |
|---|---|---|
| Database.Wrap32 | PIMS.Application/Services/InventoryService/InventoryAppService.cs:73 | the `+=` on the `int` quantity is unchecked: a sum inside the 32-bit range is exact, and one just above `int.MaxValue` wraps to a negative value |
| Ledger.RowsForMembers | PIMS.Application/Services/InventoryService/InventoryAppService.cs:119-121 | the `Where(InventoryID == id)` filter keeps exactly the ledger rows of that inventory, each as many times as the ledger holds it and no other row, and never more rows than the ledger has |
| Ledger.DropRowsOfMembers | PIMS.EntityFramework/Migrations/PrimsDbContextModelSnapshot.cs:430-434 | the cascade from a deleted inventory to its transactions keeps exactly the rows of the surviving inventories |
| Ledger.DropRowsOfKeepsHistory | PIMS.EntityFramework/Migrations/PrimsDbContextModelSnapshot.cs:430-434 | the cascade leaves the history of every surviving inventory unchanged, row for row and in order |
| Ledger.DropRowsOfIncreasing | PIMS.EntityFramework/Migrations/PrimsDbContextModelSnapshot.cs:430-434 | the cascade keeps the remaining ledger in identity order |
| Database.SameSkuIgnoresTrailingSpace | PIMS.EntityFramework/Migrations/PrimsDbContextModelSnapshot.cs:268-269 | the SKU index and the SKU query, running on SQL Server, treat a SKU with a trailing space as equal to the SKU without it |
| Database.SameSkuIgnoresCase | PIMS.EntityFramework/Migrations/PrimsDbContextModelSnapshot.cs:268-269 | under the default case-insensitive collation "abc" equals "ABC", while "ABC" and "ABD" stay distinct |
| Database.SameSkuAsFolded | PIMS.EntityFramework/Migrations/PrimsDbContextModelSnapshot.cs:268-269 | for every SKU, folding its ASCII letters to lower case gives a SKU the unique index and the query treat as equal to it |
| Database.CaseVariantsAreOneSku | PIMS.EntityFramework/Migrations/PrimsDbContextModelSnapshot.cs:268-269 | any two SKUs that differ only in the case of their ASCII letters collide under the unique index |
| InventoryService.CreateInventory | PIMS.Application/Services/InventoryService/InventoryAppService.cs:38-52 | a missing product is NotFound; a product that already has a stock record is refused as Conflict by the unique ProductID index; on success there is exactly one new record with the request's product, quantity and location under a fresh key, the product has no other record, and everything else is unchanged; any failure leaves the store unchanged |
| InventoryService.CreateInventoryPreservesValid | PIMS.Application/Services/InventoryService/InventoryAppService.cs:41-51 | on a valid store and with a quantity inside the request's `Range(0, int.MaxValue)`, creation succeeds if and only if the product exists and has no stock record yet, and the store stays valid |
| InventoryService.CreateInventoryKeepsLedgerBalanced | PIMS.Application/Services/InventoryService/InventoryAppService.cs:49-51 | a new record starts with an empty history, so the ledger still accounts for every quantity once the new record's opening quantity is added |
| InventoryService.AdjustInventoryAttributed | PIMS.Application/Services/InventoryService/InventoryAppService.cs:62-95 | corrected adjustment (see Findings): NotFound for a missing record; Validation when the new quantity would be negative, including a sum past `int.MaxValue` that wraps negative; on success the new quantity is the old one plus the change, and exactly one ledger row is appended carrying the change, the reason, the time and the acting user; the product, location, other records and catalog are unchanged; a failure saves neither the quantity nor the row |
| InventoryService.AdjustInventory | PIMS.Application/Services/InventoryService/InventoryAppService.cs:62-95 | the adjustment as written: NotFound for a missing record; Validation for a negative result, including a sum past `int.MaxValue` that wraps negative; on success the quantity is the old one plus the change, the product, location, other records and catalog are unchanged, and the appended row carries the unassigned user id 0; a failure saves nothing |
| InventoryService.AdjustInventoryPreservesValid | PIMS.Application/Services/InventoryService/InventoryAppService.cs:72-88 | an adjustment never leaves a valid store invalid, so no quantity goes below zero; the ledger only grows at its end |
| InventoryService.AttributedAdjustmentCommits | PIMS.Application/Services/InventoryService/InventoryAppService.cs:78-88 | on a valid store, an adjustment of an existing record by a known user that yields a quantity between 0 and `int.MaxValue` always commits and records that user |
| InventoryService.AdjustInventoryNeedsUserZero | PIMS.Application/Services/InventoryService/InventoryAppService.cs:78-87 | as written, when no user has id 0 every adjustment fails and saves nothing, because the row's required UserID foreign key is 0 |
| InventoryService.SaleExample | PIMS.Application/Services/InventoryService/InventoryAppService.cs:73-88 | selling 10 of 50 units leaves 40 and appends one ledger row |
| InventoryService.OversellExample | PIMS.Application/Services/InventoryService/InventoryAppService.cs:73-75 | taking 10 from 5 units is Validation and saves nothing |
| InventoryService.SeededUsersExample | PIMS.EntityFramework/DataSeed/DataSeeder.cs:40-70 | with only the two seeded users, ids 1 and 2, the adjustment as written is refused even for a sale that leaves stock |
| InventoryService.AdjustmentKeepsLedgerBalanced | PIMS.Application/Services/InventoryService/InventoryAppService.cs:73-87 | the quantity change and its ledger row are saved together, so if the ledger accounted for every quantity before an adjustment it still does after it |
| InventoryService.GetInventoryByProductId | PIMS.Application/Services/InventoryService/InventoryAppService.cs:100-110 | NotFound if and only if the product has no stock record; otherwise a stored record of that product |
| InventoryService.GetInventoryTransactions | PIMS.Application/Services/InventoryService/InventoryAppService.cs:117-124 | exactly the ledger rows of the given inventory, possibly none: every such row as many times as the ledger holds it, and no row of another inventory |
| InventoryService.CheckLowInventory | PIMS.Application/Services/InventoryService/InventoryAppService.cs:130-142 | one alert, with product and quantity, for every stock record strictly below the threshold, for no other record, and none twice |
| ProductService.GetAllProducts | PIMS.Application/Services/ProductService/ProductAppService.cs:31-43 | without a category, every product; with one, exactly the products linked to that category; the stored product data in both cases |
| ProductService.GetProductById | PIMS.Application/Services/ProductService/ProductAppService.cs:50-58 | the stored product when the id exists, and nothing (no error) when it does not |
| ProductService.ResolveCategories | PIMS.Application/Services/ProductService/ProductAppService.cs:71-76 | the requested category ids that name an existing category, the unknown ones skipped silently |
| ProductService.CreateProduct | PIMS.Application/Services/ProductService/ProductAppService.cs:64-80 | a SKU already in use is Validation, comparing SKUs as the database does (trailing spaces ignored, ASCII letters case-insensitive); on success the new product carries the request's fields and the creation time under a fresh key, it is linked to every requested existing category and to nothing else, and no existing product, link, category or stock changes |
| ProductService.PaddedSkuIsRefused | PIMS.Application/Services/ProductService/ProductAppService.cs:66-67 | creating a product with SKU "ABC " next to a stored "ABC" is Validation and saves nothing |
| ProductService.CreatedProductIsFound | PIMS.Application/Services/ProductService/ProductAppService.cs:50-80 | after a creation, looking up the new key returns the request's fields with the creation time, and every other key reads as before |
| ProductService.CreateProductPreservesValid | PIMS.Application/Services/ProductService/ProductAppService.cs:64-80 | on a valid store, creation succeeds if and only if no stored SKU compares equal to the requested one under the database's comparison; the new product's links are exactly the requested existing categories; the store stays valid; prices stay non-negative when the price passed the request's `Range(0.01, …)` |
| ProductService.NewProductStoreValid | PIMS.Application/Services/ProductService/ProductAppService.cs:69-79 | a new product whose SKU compares unequal to every stored one, linked only to existing categories, breaks no store constraint and keeps the store valid |
| ProductService.UpdateProduct | PIMS.Application/Services/ProductService/ProductAppService.cs:87-107 | a missing product is NotFound; a SKU that another product's SKU compares equal to (trailing spaces and ASCII case ignored) is refused as Conflict by the unique index; on success the fields are replaced, the creation time is kept, the product's links become exactly the requested existing categories, and other products' links are untouched |
| ProductService.UpdatedStoreValid | PIMS.Application/Services/ProductService/ProductAppService.cs:96-106 | an update whose SKU compares unequal to every other product's, with links only to existing categories, breaks no store constraint and keeps the store valid |
| ProductService.UpdateProductPreservesValid | PIMS.Application/Services/ProductService/ProductAppService.cs:87-107 | on a valid store, an update of an existing product succeeds if and only if no other product's SKU compares equal to the requested one, and the store stays valid |
| ProductService.CaseVariantSkuConflicts | PIMS.Application/Services/ProductService/ProductAppService.cs:96-106 | changing a product's SKU to "abc" while another product holds "ABC" is refused as Conflict and saves nothing |
| ProductService.UpdatedProductIsFound | PIMS.Application/Services/ProductService/ProductAppService.cs:50-107 | after an update, looking up the product returns the request's fields with the original creation time, and every other id reads as before |
| ProductService.UpdateProductSetsListing | PIMS.Application/Services/ProductService/ProductAppService.cs:98-104 | after an update, the category-filtered listing shows the product under a category if and only if that category was requested and exists |
| ProductService.DeleteProduct | PIMS.Application/Services/ProductService/ProductAppService.cs:113-121 | a missing product is NotFound; on success the product is gone, together with its stock record, that record's ledger rows and its links, while every other product, record, row and every category remains |
| ProductService.DeletedProductIsGone | PIMS.Application/Services/ProductService/ProductAppService.cs:113-121 | after a deletion, looking up the product yields nothing, and deleting it again is NotFound |
| ProductService.DeleteProductPreservesValid | PIMS.Application/Services/ProductService/ProductAppService.cs:113-121 | on a valid store, deletion succeeds if and only if the product exists, the store stays valid, and the surviving ledger still accounts for every surviving quantity |
| ProductService.AdjustPrice | PIMS.Application/Services/ProductService/ProductAppService.cs:128-139 | a negative price is Validation even for a missing product; then a missing product is NotFound; on success only that product's price changes, to the new price, which may be zero |
| ProductService.AdjustPricePreservesValid | PIMS.Application/Services/ProductService/ProductAppService.cs:128-139 | on a valid store, the change succeeds if and only if the price is non-negative and the product exists; prices stay non-negative |
| ProductService.BulkMode | PIMS.Application/Services/ProductService/ProductAppService.cs:149-153 | giving both a percentage and a fixed amount, or neither, is Validation; otherwise the mode is the one given |
| ProductService.FullDiscountZeroesPrices | PIMS.Application/Services/ProductService/ProductAppService.cs:155-178 | on a valid store a call with a percentage of -100 that matches a product succeeds, sets every matched price to 0 whatever it was, and leaves the other products as they were |
| ProductService.ZeroPercentKeepsStore | PIMS.Application/Services/ProductService/ProductAppService.cs:155-178 | on a valid store with non-negative prices a zero-percent call that matches a product succeeds and saves the store exactly as it was |
| ProductService.AdjustBulkPrices | PIMS.Application/Services/ProductService/ProductAppService.cs:147-179 | mode errors are Validation; an id list matching no product is NotFound; a negative new price for any matched product is Validation and saves no price at all; on success every matched product gets its new price by the requested formula, only prices change, and unmatched products are untouched |
| ProductService.NegativeBulkPriceSavesNothing | PIMS.Application/Services/ProductService/ProductAppService.cs:174-175 | one matched product whose new price would be negative makes the whole call Validation, with the store unchanged |
| ProductService.BulkAdjustmentDependsOnlyOnIdSet | PIMS.Application/Services/ProductService/ProductAppService.cs:155-157 | the `Contains` query makes order and repetition in the id list irrelevant: each matched product is repriced once |
| ProductService.AdjustBulkPricesPreservesValid | PIMS.Application/Services/ProductService/ProductAppService.cs:162-178 | a bulk call never leaves a valid store invalid and never makes a price negative |
| ProductService.BulkAdjustmentWithinRangesSucceeds | PIMS.Core/Dto/ProductDto/BulkPriceAdjustmentDto.cs:14-18 | with non-negative prices, a percentage in [-100, 100] or a fixed amount of at least 0.01, and at least one matching id, a valid call always succeeds |
| ProductService.RepriceWithinRangesNonNegative | PIMS.Core/Dto/ProductDto/BulkPriceAdjustmentDto.cs:14-18 | a change inside the request's ranges keeps a non-negative price non-negative |
| ProductService.BulkPercentageExample | PIMS.Application/Services/ProductService/ProductAppService.cs:164-168 | prices {100, 50} raised by 10 percent become {110, 55} |
| CategoryService.GetAllCategories | PIMS.Application/Services/CategoryService/CategoryAppService.cs:34-38 | every stored category with its stored name, none added and none dropped |
| CategoryService.GetCategoryById | PIMS.Application/Services/CategoryService/CategoryAppService.cs:46-53 | NotFound if and only if the id is absent; otherwise the stored category |
| CategoryService.CreateCategory | PIMS.Application/Services/CategoryService/CategoryAppService.cs:59-64 | on success there is one new category with the requested name under a fresh key, and no other category, product, link or stock changes |
| CategoryService.CreateCategoryPreservesValid | PIMS.Application/Services/CategoryService/CategoryAppService.cs:59-64 | on a valid store, creation always succeeds, adds exactly one category, and keeps the store valid |
| CategoryService.WithNewCategoryValid | PIMS.Application/Services/CategoryService/CategoryAppService.cs:59-64 | a category saved under the next key, with the counter moved past it, keeps every constraint and invariant of a valid store |
| CategoryService.CreatedCategoryIsListed | PIMS.Application/Services/CategoryService/CategoryAppService.cs:59-64 | after creation, both reads return the new category under its key, and every earlier category is still listed |
| CategoryService.UpdateCategory | PIMS.Application/Services/CategoryService/CategoryAppService.cs:72-80 | a missing category is NotFound; on success only that category's name changes |
| CategoryService.UpdateCategoryPreservesValid | PIMS.Application/Services/CategoryService/CategoryAppService.cs:72-80 | on a valid store, renaming succeeds if and only if the category exists, and the store stays valid |
| CategoryService.DeleteCategory | PIMS.Application/Services/CategoryService/CategoryAppService.cs:87-95 | a missing category is NotFound; on success the category is gone, its product links are removed by the cascade, and the products, other categories and stock remain |
| CategoryService.DeletedCategoryIsGone | PIMS.Application/Services/CategoryService/CategoryAppService.cs:87-95 | after a deletion both reads treat the category as absent, and deleting it again is NotFound |
| CategoryService.DeleteCategoryPreservesValid | PIMS.Application/Services/CategoryService/CategoryAppService.cs:87-95 | on a valid store, deletion succeeds if and only if the category exists, the store stays valid, and afterwards the category filter of the product listing is empty |

## Left out

- Controllers, authentication and authorization, the identity layer, start-up, seeding and migrations are not part of this model. The Users table is only read, as the set of user ids that ledger rows may refer to.
- Request validation attributes (`Required`, `Range`, `StringLength`) run before the services. The model does not enforce them. Their ranges appear only as hypotheses of the lemmas that need them: `CreateInventoryPreservesValid`, `CreateProductPreservesValid`, `UpdateProductPreservesValid` and the bulk-range lemmas.
- AutoMapper is modelled as a field-by-field copy. The output DTO shapes, including the product's resolved category list, are not modelled: queries return the stored rows.
- UpdateProductDto and the Category entity are not part of this model. The update request is taken to carry CreateProductDto's fields, and a category to be just its name, as in the schema snapshot.
- A category id repeated in one product request gives the model one link, because links are a set. The service would add two associations with the same key, which the change tracker refuses, so that call fails and saves nothing. That failure is left out.
- SKU comparison assumes the server's default collation, which is case-insensitive and accent-sensitive. Trailing spaces are ignored and ASCII letters are folded. Case folding of non-ASCII letters and other collations are left out.
- `decimal` is modelled as an exact `real`. The column's decimal(18,2) rounding and `decimal` overflow are left out.
- A refused INSERT uses up an identity value on the server: a Conflict from `CreateInventory`, `CreateProduct` or `CreateCategory`, or an adjustment refused by the ledger's UserID foreign key, advances the table's identity on the server. The model leaves the counters unchanged on every failure. So only the freshness of keys is modelled, not the key values handed out after a refused insert.
- Stock and change amounts are 32-bit; the wrap-around of `Quantity += QuantityChange` is modelled. Identity keys are unbounded integers.
- Clock readings are parameters. The console output of the low-stock scan is replaced by the returned alerts; the product name in the message is not modelled.
- Concurrency between requests, asynchronous execution and the database's isolation are left out: each call runs alone on the store.
- The order in which queries return rows is left out. The product, category and low-stock queries are specified as sets of rows, and the product-id lookup returns some matching record, which the unique index makes the only one.

## Findings

| source | as written | input that shows it | evidently intended | confidence | as-written member | corrected member |
|---|---|---|---|---|---|---|
| PIMS.Application/Services/InventoryService/InventoryAppService.cs:78-84 | The ledger row is built without a UserID, so it keeps `int`'s default 0. UserID is a required foreign key to Users (PrimsDbContextModelSnapshot.cs:436-440), and user ids come from an identity column that starts at 1. So SaveChanges refuses the row, and the transaction rolls back the quantity as well. | The seeded users 1 and 2, and any existing record with quantity 50, adjusted by -10 "sale": the call fails and nothing is saved. | The row records the acting user. The method's documentation names a `userId` parameter, and the calling controller computes that id but does not pass it on. | not executed; follows from the schema's required foreign key and the identity seed | InventoryService.AdjustInventory, InventoryService.AdjustInventoryNeedsUserZero | InventoryService.AdjustInventoryAttributed, InventoryService.AttributedAdjustmentCommits |
