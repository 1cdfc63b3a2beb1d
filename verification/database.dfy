/**
 * The relational store behind the services: the five tables as finite maps, a set
 * and a sequence; the identity counters that hand out new keys; the constraints the
 * store enforces itself when changes are saved; and the invariants the services are
 * meant to keep on top of those.
 */
module Database {
  import opened Results

  const MinInt32: int := -0x8000_0000
  const MaxInt32: int := 0x7fff_ffff

  /** A 32-bit signed integer, the width of every `int` column and DTO field. */
  type Int32 = x: int | -0x8000_0000 <= x <= 0x7fff_ffff

  /** C#'s unchecked `int` addition: the exact sum brought back into the 32-bit range. */
  function Wrap32(x: int): (r: Int32)
    ensures MinInt32 <= x <= MaxInt32 ==> r == x
    ensures MaxInt32 < x <= 2 * MaxInt32 ==> r == x - 0x1_0000_0000 && r < 0
  {
    (x - MinInt32) % 0x1_0000_0000 + MinInt32
  }

  /** A moment as the store records it. Clock readings enter the model as parameters. */
  type Instant = int

  datatype Category = Category(name: string)

  datatype Product = Product(
    name: string,
    description: string,
    price: real,
    sku: string,
    createdDate: Instant)

  datatype Inventory = Inventory(productId: int, quantity: Int32, warehouseLocation: string)

  /** One row of the append-only ledger (an InventoryTransaction). */
  datatype LedgerRow = LedgerRow(
    transactionId: int,
    inventoryId: int,
    quantityChange: Int32,
    reason: string,
    timestamp: Instant,
    userId: int)

  /** One row of the product–category association table; its key is the whole pair. */
  datatype Link = Link(productId: int, categoryId: int)

  /** The whole store. `users` holds the ids of the identity layer's Users table, which
      these services only ever refer to. Each `next…` field lies above every key in use in
      its table, so the key it hands out is fresh; it is not the server's exact next
      identity value, which a refused insert also advances. */
  datatype Store = Store(
    categories: map<int, Category>,
    products: map<int, Product>,
    links: set<Link>,
    inventories: map<int, Inventory>,
    ledger: seq<LedgerRow>,
    users: set<int>,
    nextCategoryId: int,
    nextProductId: int,
    nextInventoryId: int,
    nextTransactionId: int)

  /** How a mutating call ended. */
  datatype Status = Done | Failed(error: Error)

  /** The store after a mutating call, together with how the call ended. */
  datatype Outcome = Outcome(store: Store, status: Status)

  function Fail(s: Store, e: Error): Outcome
  {
    Outcome(s, Failed(e))
  }

  // ---------------------------------------------------------------------------
  // Constraints the store enforces when changes are saved
  // ---------------------------------------------------------------------------

  /** The string without its trailing spaces: SQL Server pads the shorter operand of a
      comparison with spaces, so trailing spaces never tell two strings apart. */
  function TrimTrailingSpaces(x: string): string
  {
    if |x| > 0 && x[|x| - 1] == ' ' then TrimTrailingSpaces(x[..|x| - 1]) else x
  }

  /** A character under a case-insensitive collation, for the ASCII letters. */
  function FoldCase(c: char): char
  {
    if 'A' <= c <= 'Z' then (c as int - 'A' as int + 'a' as int) as char else c
  }

  /** The form in which the database compares SKUs: trailing spaces dropped, case folded. */
  function SkuKey(sku: string): string
  {
    FoldAll(TrimTrailingSpaces(sku))
  }

  function FoldAll(x: string): (r: string)
    ensures |r| == |x|
  {
    if |x| == 0 then [] else FoldAll(x[..|x| - 1]) + [FoldCase(x[|x| - 1])]
  }

  /** SKU equality as the `=` of the query and the unique index see it, under the server's
      default case-insensitive collation. */
  predicate SameSku(a: string, b: string)
  {
    SkuKey(a) == SkuKey(b)
  }

  /** Trailing spaces never distinguish two SKUs. */
  lemma SameSkuIgnoresTrailingSpace(x: string)
    ensures SameSku(x + " ", x)
  {
    assert (x + " ")[..|x|] == x;
  }

  /** Folding a string folds its characters one by one, left to right. */
  lemma FoldAllAppend(x: string, c: char)
    ensures FoldAll(x + [c]) == FoldAll(x) + [FoldCase(c)]
  {
    assert (x + [c])[..|x|] == x;
  }

  /** Under the case-insensitive collation "abc" and "ABC" are one SKU, while "ABC" and
      "ABD" stay apart. */
  lemma SameSkuIgnoresCase()
    ensures SameSku("abc", "ABC")
    ensures !SameSku("ABC", "ABD")
  {
    FoldAllAppend([], 'A');
    FoldAllAppend("A", 'B');
    FoldAllAppend("AB", 'C');
    FoldAllAppend("AB", 'D');
    FoldAllAppend([], 'a');
    FoldAllAppend("a", 'b');
    FoldAllAppend("ab", 'c');
    assert SkuKey("ABC") == FoldAll("ABC") == "abc";
    assert SkuKey("abc") == FoldAll("abc") == "abc";
    assert SkuKey("ABD") == FoldAll("ABD") == "abd";
  }

  /** Folding a string folds each of its characters in place. */
  lemma {:induction false} FoldAllAt(x: string)
    ensures forall k :: 0 <= k < |x| ==> FoldAll(x)[k] == FoldCase(x[k])
  {
    if |x| > 0 {
      FoldAllAt(x[..|x| - 1]);
    }
  }

  /** A string whose every character is already folded folds to itself. */
  lemma {:induction false} FoldAllFixes(y: string)
    requires forall k :: 0 <= k < |y| ==> FoldCase(y[k]) == y[k]
    ensures FoldAll(y) == y
  {
    if |y| > 0 {
      var init, c := y[..|y| - 1], y[|y| - 1];
      assert forall k :: 0 <= k < |init| ==> init[k] == y[k];
      FoldAllFixes(init);
      assert FoldAll(y) == FoldAll(init) + [FoldCase(c)];
      assert y == init + [c];
    }
  }

  /** Folding a folded string changes nothing more. */
  lemma FoldAllIdempotent(x: string)
    ensures FoldAll(FoldAll(x)) == FoldAll(x)
  {
    FoldAllAt(x);
    forall k | 0 <= k < |x| ensures FoldCase(FoldAll(x)[k]) == FoldAll(x)[k] {
      assert FoldCase(FoldCase(x[k])) == FoldCase(x[k]);
    }
    FoldAllFixes(FoldAll(x));
  }

  /** Folding case and dropping trailing spaces can be done in either order: only a space
      folds to a space. */
  lemma {:induction false} FoldTrimCommute(x: string)
    ensures FoldAll(TrimTrailingSpaces(x)) == TrimTrailingSpaces(FoldAll(x))
  {
    if |x| > 0 {
      var init := x[..|x| - 1];
      var f := FoldAll(init);
      assert FoldAll(x) == f + [FoldCase(x[|x| - 1])];
      assert (f + [FoldCase(x[|x| - 1])])[..|f|] == f;
      if x[|x| - 1] == ' ' {
        FoldTrimCommute(init);
      }
    }
  }

  /** A SKU and its case-folded form are one SKU. */
  lemma SameSkuAsFolded(x: string)
    ensures SameSku(FoldAll(x), x)
  {
    FoldTrimCommute(x);
    FoldAllIdempotent(TrimTrailingSpaces(x));
  }

  /** Two SKUs that differ only in the case of their letters are one SKU. */
  lemma CaseVariantsAreOneSku(x: string, y: string)
    requires FoldAll(x) == FoldAll(y)
    ensures SameSku(x, y)
  {
    SameSkuAsFolded(x);
    SameSkuAsFolded(y);
  }

  /** The unique index on Products.SKU. */
  predicate SkuUnique(products: map<int, Product>)
  {
    forall a, b :: a in products && b in products && a != b ==> !SameSku(products[a].sku, products[b].sku)
  }

  /** The unique index on Inventories.ProductID: at most one inventory per product. */
  predicate OneInventoryPerProduct(inventories: map<int, Inventory>)
  {
    forall a, b :: a in inventories && b in inventories && a != b ==>
      inventories[a].productId != inventories[b].productId
  }

  /** Every foreign key points at an existing row. */
  predicate ForeignKeysHold(s: Store)
  {
    && (forall i :: i in s.inventories ==> s.inventories[i].productId in s.products)
    && (forall l :: l in s.links ==> l.productId in s.products && l.categoryId in s.categories)
    && (forall k :: 0 <= k < |s.ledger| ==> s.ledger[k].inventoryId in s.inventories)
    && (forall k :: 0 <= k < |s.ledger| ==> s.ledger[k].userId in s.users)
  }

  predicate Constraints(s: Store)
  {
    SkuUnique(s.products) && OneInventoryPerProduct(s.inventories) && ForeignKeysHold(s)
  }

  /** SaveChanges inside the call's transaction: the changed store is kept when it meets
      the store's constraints; otherwise the store refuses and everything rolls back. */
  function Commit(before: Store, after: Store): Outcome
  {
    if Constraints(after) then Outcome(after, Done) else Fail(before, Conflict)
  }

  // ---------------------------------------------------------------------------
  // Invariants the services keep on top of the store's own constraints
  // ---------------------------------------------------------------------------

  /** No stock level is below zero. */
  predicate QuantitiesNonNegative(inventories: map<int, Inventory>)
  {
    forall i :: i in inventories ==> inventories[i].quantity >= 0
  }

  /** Ledger rows appear in the order their identity values were handed out. */
  predicate IncreasingIds(rows: seq<LedgerRow>)
  {
    forall j, k :: 0 <= j < k < |rows| ==> rows[j].transactionId < rows[k].transactionId
  }

  /** Every key in use lies below its table's identity counter, so the next key is fresh. */
  predicate KeysBelowCounters(s: Store)
  {
    && (forall c :: c in s.categories ==> c < s.nextCategoryId)
    && (forall p :: p in s.products ==> p < s.nextProductId)
    && (forall i :: i in s.inventories ==> i < s.nextInventoryId)
    && (forall k :: 0 <= k < |s.ledger| ==> s.ledger[k].transactionId < s.nextTransactionId)
  }

  predicate Valid(s: Store)
  {
    && Constraints(s)
    && QuantitiesNonNegative(s.inventories)
    && IncreasingIds(s.ledger)
    && KeysBelowCounters(s)
  }

  /** Every price is at least zero. Creation leaves this to the request's range check. */
  predicate PricesNonNegative(products: map<int, Product>)
  {
    forall p :: p in products ==> products[p].price >= 0.0
  }

  /** `after` is `before` with rows appended at the end and nothing else touched. */
  predicate AppendOnly(before: seq<LedgerRow>, after: seq<LedgerRow>)
  {
    |before| <= |after| && after[..|before|] == before
  }

  /** Products, categories and their links are as they were. */
  predicate SameCatalog(s: Store, t: Store)
  {
    s.products == t.products && s.categories == t.categories && s.links == t.links
  }

  /** Inventories and the ledger are as they were. */
  predicate SameStock(s: Store, t: Store)
  {
    s.inventories == t.inventories && s.ledger == t.ledger
  }

  /** A non-empty set has a member to pick; used by the table scans. */
  lemma NonEmptyHasMember(xs: set<int>)
    requires xs != {}
    ensures exists x :: x in xs
  {
    if forall x :: x !in xs {
      assert false;
    }
  }
}
