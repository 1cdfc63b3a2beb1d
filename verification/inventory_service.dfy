/**
 * InventoryAppService: creating stock records, the transactional "adjust quantity and
 * append one ledger row" operation, and the read-side queries over stock and ledger.
 */
module InventoryService {
  import opened Results
  import opened Database
  import opened Ledger

  /** CreateInventoryDto, copied field by field onto the new row. */
  datatype CreateInventoryRequest = CreateInventoryRequest(
    productId: int,
    quantity: Int32,
    warehouseLocation: string)

  /** AdjustInventoryDto. */
  datatype AdjustInventoryRequest = AdjustInventoryRequest(quantityChange: Int32, reason: string)

  /** A low-stock signal: which inventory, for which product, and how many units are left. */
  datatype LowStockAlert = LowStockAlert(inventoryId: int, productId: int, quantity: int)

  /** The UserID of every ledger row AdjustInventoryAsync writes: the row is built without
      one, so it keeps `int`'s default. */
  const UnassignedUserId: int := 0

  // ---------------------------------------------------------------------------
  // CreateInventoryAsync
  // ---------------------------------------------------------------------------

  /** Adds a stock record for an existing product. The service does not look for an
      existing record of that product; the store's unique index on ProductID refuses a
      second one when the change is saved. */
  function CreateInventory(s: Store, dto: CreateInventoryRequest): (r: Outcome)
    ensures dto.productId !in s.products ==> r == Fail(s, NotFound)
    ensures (&& dto.productId in s.products
             && exists i :: i in s.inventories && i != s.nextInventoryId
                            && s.inventories[i].productId == dto.productId)
            ==> r == Fail(s, Conflict)
    ensures r.status.Failed? ==> r.store == s
    ensures r.status.Done? ==>
              && dto.productId in s.products
              && r.store.inventories.Keys == s.inventories.Keys + {s.nextInventoryId}
              && r.store.inventories[s.nextInventoryId]
                 == Inventory(dto.productId, dto.quantity, dto.warehouseLocation)
              && (forall i :: i in s.inventories && i != s.nextInventoryId ==>
                    r.store.inventories[i] == s.inventories[i])
              && (forall i :: i in r.store.inventories && r.store.inventories[i].productId == dto.productId ==>
                    i == s.nextInventoryId)
              && r.store.ledger == s.ledger
              && SameCatalog(s, r.store)
  {
    if dto.productId !in s.products then Fail(s, NotFound)
    else
      var id := s.nextInventoryId;
      var created := Inventory(dto.productId, dto.quantity, dto.warehouseLocation);
      var t := s.(inventories := s.inventories[id := created], nextInventoryId := id + 1);
      assert forall i :: i in s.inventories && i != id && s.inventories[i].productId == dto.productId ==>
        t.inventories[i].productId == t.inventories[id].productId;
      Commit(s, t)
  }

  /** On a valid store, creation succeeds exactly when the product exists and has no stock
      record yet, and it keeps the store valid when the requested quantity is in the range
      the request's validation admits. */
  lemma CreateInventoryPreservesValid(s: Store, dto: CreateInventoryRequest)
    requires Valid(s)
    requires dto.quantity >= 0
    ensures var r := CreateInventory(s, dto);
            && Valid(r.store)
            && (r.status.Done? <==>
                  dto.productId in s.products
                  && forall i :: i in s.inventories ==> s.inventories[i].productId != dto.productId)
  {
    var r := CreateInventory(s, dto);
    if dto.productId in s.products && forall i :: i in s.inventories ==> s.inventories[i].productId != dto.productId {
      var id := s.nextInventoryId;
      var t := s.(inventories := s.inventories[id := Inventory(dto.productId, dto.quantity, dto.warehouseLocation)],
                  nextInventoryId := id + 1);
      assert ForeignKeysHold(t);
      assert Constraints(t);
    }
  }

  /** A new stock record starts with no history, so the ledger still accounts for every
      quantity once the new record's opening quantity is added. */
  lemma CreateInventoryKeepsLedgerBalanced(s: Store, dto: CreateInventoryRequest, opening: map<int, int>)
    requires Valid(s)
    requires Balanced(s, opening)
    ensures var r := CreateInventory(s, dto);
            r.status.Done? ==> Balanced(r.store, opening[s.nextInventoryId := dto.quantity])
  {
    var r := CreateInventory(s, dto);
    if r.status.Done? {
      var id := s.nextInventoryId;
      RowsForNone(s.ledger, id);
      assert SumChanges(RowsFor(r.store.ledger, id)) == 0;
    }
  }

  // ---------------------------------------------------------------------------
  // AdjustInventoryAsync
  // ---------------------------------------------------------------------------

  /** The adjustment with the acting user recorded on the ledger row. Inside one
      transaction: load the record (NotFound), add the change with 32-bit wrap-around,
      refuse a negative result (Validation), then save the new quantity together with
      exactly one new ledger row; any failure rolls both back. */
  function AdjustInventoryAttributed(
    s: Store, inventoryId: int, adj: AdjustInventoryRequest, userId: int, now: Instant): (r: Outcome)
    ensures inventoryId !in s.inventories ==> r == Fail(s, NotFound)
    ensures (&& inventoryId in s.inventories
             && MinInt32 <= s.inventories[inventoryId].quantity + adj.quantityChange < 0)
            ==> r == Fail(s, Validation)
    ensures (&& inventoryId in s.inventories
             && s.inventories[inventoryId].quantity + adj.quantityChange > MaxInt32)
            ==> r == Fail(s, Validation)
    ensures r.status.Failed? ==> r.store == s
    ensures r.status.Done? ==>
              && inventoryId in s.inventories
              && r.store.inventories.Keys == s.inventories.Keys
              && r.store.inventories[inventoryId].quantity >= 0
              && (MinInt32 <= s.inventories[inventoryId].quantity + adj.quantityChange ==>
                    r.store.inventories[inventoryId].quantity
                    == s.inventories[inventoryId].quantity + adj.quantityChange)
              && r.store.inventories[inventoryId].productId == s.inventories[inventoryId].productId
              && r.store.inventories[inventoryId].warehouseLocation == s.inventories[inventoryId].warehouseLocation
              && (forall i :: i in s.inventories && i != inventoryId ==> r.store.inventories[i] == s.inventories[i])
              && r.store.ledger
                 == s.ledger + [LedgerRow(s.nextTransactionId, inventoryId, adj.quantityChange, adj.reason, now, userId)]
              && SameCatalog(s, r.store)
  {
    if inventoryId !in s.inventories then Fail(s, NotFound)
    else
      var inventory := s.inventories[inventoryId];
      var quantity := Wrap32(inventory.quantity + adj.quantityChange);
      if quantity < 0 then Fail(s, Validation)
      else
        var row := LedgerRow(s.nextTransactionId, inventoryId, adj.quantityChange, adj.reason, now, userId);
        Commit(s, s.(inventories := s.inventories[inventoryId := inventory.(quantity := quantity)],
                     ledger := s.ledger + [row],
                     nextTransactionId := s.nextTransactionId + 1))
  }

  /** AdjustInventoryAsync as written: the same transaction, but the ledger row it builds
      never receives a user id and so carries UnassignedUserId. */
  function AdjustInventory(s: Store, inventoryId: int, adj: AdjustInventoryRequest, now: Instant): (r: Outcome)
    ensures inventoryId !in s.inventories ==> r == Fail(s, NotFound)
    ensures (&& inventoryId in s.inventories
             && MinInt32 <= s.inventories[inventoryId].quantity + adj.quantityChange < 0)
            ==> r == Fail(s, Validation)
    ensures (&& inventoryId in s.inventories
             && s.inventories[inventoryId].quantity + adj.quantityChange > MaxInt32)
            ==> r == Fail(s, Validation)
    ensures r.status.Failed? ==> r.store == s
    ensures r.status.Done? ==>
              && inventoryId in s.inventories
              && r.store.inventories.Keys == s.inventories.Keys
              && r.store.inventories[inventoryId].quantity >= 0
              && (MinInt32 <= s.inventories[inventoryId].quantity + adj.quantityChange ==>
                    r.store.inventories[inventoryId].quantity
                    == s.inventories[inventoryId].quantity + adj.quantityChange)
              && r.store.inventories[inventoryId].productId == s.inventories[inventoryId].productId
              && r.store.inventories[inventoryId].warehouseLocation == s.inventories[inventoryId].warehouseLocation
              && (forall i :: i in s.inventories && i != inventoryId ==> r.store.inventories[i] == s.inventories[i])
              && r.store.ledger
                 == s.ledger + [LedgerRow(s.nextTransactionId, inventoryId, adj.quantityChange, adj.reason, now,
                                          UnassignedUserId)]
              && SameCatalog(s, r.store)
  {
    AdjustInventoryAttributed(s, inventoryId, adj, UnassignedUserId, now)
  }

  /** Every adjustment keeps the store valid: in particular no quantity goes below zero,
      and the ledger only ever grows at its end. */
  lemma AdjustInventoryPreservesValid(
    s: Store, inventoryId: int, adj: AdjustInventoryRequest, userId: int, now: Instant)
    requires Valid(s)
    ensures var r := AdjustInventoryAttributed(s, inventoryId, adj, userId, now);
            Valid(r.store) && AppendOnly(s.ledger, r.store.ledger)
  {
    var r := AdjustInventoryAttributed(s, inventoryId, adj, userId, now);
    if r.status.Done? {
      assert r.store.ledger[..|s.ledger|] == s.ledger;
      assert QuantitiesNonNegative(r.store.inventories);
      assert KeysBelowCounters(r.store);
      assert IncreasingIds(r.store.ledger) by {
        forall j, k | 0 <= j < k < |r.store.ledger|
          ensures r.store.ledger[j].transactionId < r.store.ledger[k].transactionId
        {
          if k == |s.ledger| {
            assert r.store.ledger[j] == s.ledger[j];
          }
        }
      }
    }
  }

  /** The corrected adjustment by a known user, on a valid store, for a record that
      exists, with a result in range, always commits and records that user. */
  lemma AttributedAdjustmentCommits(
    s: Store, inventoryId: int, adj: AdjustInventoryRequest, userId: int, now: Instant)
    requires Valid(s)
    requires inventoryId in s.inventories
    requires 0 <= s.inventories[inventoryId].quantity + adj.quantityChange <= MaxInt32
    requires userId in s.users
    ensures var r := AdjustInventoryAttributed(s, inventoryId, adj, userId, now);
            r.status.Done? && r.store.ledger[|s.ledger|].userId == userId
  {
    var inventory := s.inventories[inventoryId];
    var row := LedgerRow(s.nextTransactionId, inventoryId, adj.quantityChange, adj.reason, now, userId);
    var t := s.(inventories := s.inventories[inventoryId := inventory.(quantity := inventory.quantity + adj.quantityChange)],
                ledger := s.ledger + [row],
                nextTransactionId := s.nextTransactionId + 1);
    assert ForeignKeysHold(t) by {
      forall k | 0 <= k < |t.ledger|
        ensures t.ledger[k].inventoryId in t.inventories && t.ledger[k].userId in t.users
      {
        if k < |s.ledger| {
          assert t.ledger[k] == s.ledger[k];
        }
      }
    }
    assert OneInventoryPerProduct(t.inventories);
    assert Constraints(t);
  }

  /** As written, no adjustment ever commits unless the Users table holds a row with the
      unassigned id: the saved ledger row's required foreign key to Users fails. */
  lemma AdjustInventoryNeedsUserZero(s: Store, inventoryId: int, adj: AdjustInventoryRequest, now: Instant)
    requires UnassignedUserId !in s.users
    ensures AdjustInventory(s, inventoryId, adj, now).status.Failed?
    ensures AdjustInventory(s, inventoryId, adj, now).store == s
  {
    if inventoryId in s.inventories {
      var inventory := s.inventories[inventoryId];
      var quantity := Wrap32(inventory.quantity + adj.quantityChange);
      var row := LedgerRow(s.nextTransactionId, inventoryId, adj.quantityChange, adj.reason, now, UnassignedUserId);
      var t := s.(inventories := s.inventories[inventoryId := inventory.(quantity := quantity)],
                  ledger := s.ledger + [row],
                  nextTransactionId := s.nextTransactionId + 1);
      assert t.ledger[|s.ledger|].userId !in t.users;
      assert !Constraints(t);
    }
  }

  /** Selling ten of fifty units by a known user leaves forty and records one row. */
  lemma SaleExample(s: Store, inventoryId: int, userId: int, now: Instant)
    requires Valid(s)
    requires inventoryId in s.inventories && s.inventories[inventoryId].quantity == 50
    requires userId in s.users
    ensures var r := AdjustInventoryAttributed(s, inventoryId, AdjustInventoryRequest(-10, "sale"), userId, now);
            && r.status.Done?
            && r.store.inventories[inventoryId].quantity == 40
            && |r.store.ledger| == |s.ledger| + 1
  {
    AttributedAdjustmentCommits(s, inventoryId, AdjustInventoryRequest(-10, "sale"), userId, now);
  }

  /** Taking ten from five units is refused and nothing is saved. */
  lemma OversellExample(s: Store, inventoryId: int, userId: int, now: Instant)
    requires inventoryId in s.inventories && s.inventories[inventoryId].quantity == 5
    ensures AdjustInventoryAttributed(s, inventoryId, AdjustInventoryRequest(-10, "sale"), userId, now)
            == Fail(s, Validation)
  {
  }

  /** With only the two seeded users, whose identity keys start at 1, the adjustment as
      written is refused even for a sale that leaves stock. */
  lemma SeededUsersExample(s: Store, inventoryId: int, now: Instant)
    requires s.users == {1, 2}
    requires inventoryId in s.inventories && s.inventories[inventoryId].quantity == 50
    ensures AdjustInventory(s, inventoryId, AdjustInventoryRequest(-10, "sale"), now) == Fail(s, Conflict)
  {
    AdjustInventoryNeedsUserZero(s, inventoryId, AdjustInventoryRequest(-10, "sale"), now);
  }

  /** Every committed adjustment is paired with its ledger row: if the ledger accounted
      for every quantity before, it still does after. */
  lemma AdjustmentKeepsLedgerBalanced(
    s: Store, opening: map<int, int>, inventoryId: int, adj: AdjustInventoryRequest, userId: int, now: Instant)
    requires QuantitiesNonNegative(s.inventories)
    requires Balanced(s, opening)
    ensures Balanced(AdjustInventoryAttributed(s, inventoryId, adj, userId, now).store, opening)
  {
    var r := AdjustInventoryAttributed(s, inventoryId, adj, userId, now);
    if r.status.Done? {
      var row := LedgerRow(s.nextTransactionId, inventoryId, adj.quantityChange, adj.reason, now, userId);
      forall i | i in r.store.inventories
        ensures i in opening && r.store.inventories[i].quantity == opening[i] + SumChanges(RowsFor(r.store.ledger, i))
      {
        RowsForAppend(s.ledger, row, i);
        var before := RowsFor(s.ledger, i);
        assert i in s.inventories;
        assert s.inventories[i].quantity == opening[i] + SumChanges(before);
        if i == inventoryId {
          assert s.inventories[i].quantity >= 0;
          assert r.store.inventories[i].quantity == s.inventories[i].quantity + adj.quantityChange;
          assert RowsFor(r.store.ledger, i) == before + [row];
          assert (before + [row])[..|before|] == before;
          assert SumChanges(before + [row]) == SumChanges(before) + adj.quantityChange;
        } else {
          assert RowsFor(r.store.ledger, i) == before;
          assert r.store.inventories[i] == s.inventories[i];
        }
      }
    }
  }

  // ---------------------------------------------------------------------------
  // Queries
  // ---------------------------------------------------------------------------

  /** GetInventoryByProductIdAsync: the first stock record found for the product, or
      NotFound when there is none. */
  method GetInventoryByProductId(s: Store, productId: int) returns (r: Result<(int, Inventory)>)
    ensures r.Err? <==> forall i :: i in s.inventories ==> s.inventories[i].productId != productId
    ensures r.Err? ==> r.error == NotFound
    ensures r.Ok? ==> r.value.0 in s.inventories && s.inventories[r.value.0] == r.value.1
                      && r.value.1.productId == productId
  {
    var pending := s.inventories.Keys;
    while pending != {}
      invariant pending <= s.inventories.Keys
      invariant forall i :: i in s.inventories && i !in pending ==> s.inventories[i].productId != productId
      decreases pending
    {
      NonEmptyHasMember(pending);
      var i :| i in pending;
      if s.inventories[i].productId == productId {
        return Ok((i, s.inventories[i]));
      }
      pending := pending - {i};
    }
    return Err(NotFound);
  }

  /** GetInventoryTransactionsAsync: the ledger rows of one inventory, possibly none. */
  function GetInventoryTransactions(s: Store, inventoryId: int): (r: seq<LedgerRow>)
    ensures forall row :: row in r <==> row in s.ledger && row.inventoryId == inventoryId
    ensures forall row :: multiset(r)[row] == if row.inventoryId == inventoryId then multiset(s.ledger)[row] else 0
    ensures |r| <= |s.ledger|
  {
    RowsForMembers(s.ledger, inventoryId);
    RowsFor(s.ledger, inventoryId)
  }

  function AlertFor(s: Store, i: int): LowStockAlert
    requires i in s.inventories
  {
    LowStockAlert(i, s.inventories[i].productId, s.inventories[i].quantity)
  }

  /** CheckLowInventoryAsync: one signal for every stock record strictly below the
      threshold, and for no other. */
  method CheckLowInventory(s: Store, threshold: Int32) returns (alerts: seq<LowStockAlert>)
    ensures forall a :: a in alerts ==>
              a.inventoryId in s.inventories && a == AlertFor(s, a.inventoryId) && a.quantity < threshold
    ensures forall i :: i in s.inventories && s.inventories[i].quantity < threshold ==> AlertFor(s, i) in alerts
    ensures forall j, k :: 0 <= j < k < |alerts| ==> alerts[j].inventoryId != alerts[k].inventoryId
  {
    alerts := [];
    var pending := s.inventories.Keys;
    while pending != {}
      invariant pending <= s.inventories.Keys
      invariant forall a :: a in alerts ==>
                  a.inventoryId in s.inventories && a.inventoryId !in pending
                  && a == AlertFor(s, a.inventoryId) && a.quantity < threshold
      invariant forall i :: i in s.inventories && i !in pending && s.inventories[i].quantity < threshold ==>
                  AlertFor(s, i) in alerts
      invariant forall j, k :: 0 <= j < k < |alerts| ==> alerts[j].inventoryId != alerts[k].inventoryId
      decreases pending
    {
      NonEmptyHasMember(pending);
      var i :| i in pending;
      if s.inventories[i].quantity < threshold {
        alerts := alerts + [AlertFor(s, i)];
      }
      pending := pending - {i};
    }
  }
}
