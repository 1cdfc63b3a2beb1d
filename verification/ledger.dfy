/**
 * Queries over the InventoryTransactions ledger, and the accounting invariant that ties
 * each inventory's quantity to the rows recorded against it.
 */
module Ledger {
  import opened Database

  /** The rows recorded against inventory `id`, in ledger order (the query's `Where`). */
  function RowsFor(rows: seq<LedgerRow>, id: int): seq<LedgerRow>
  {
    if |rows| == 0 then []
    else
      var last := rows[|rows| - 1];
      RowsFor(rows[..|rows| - 1], id) + (if last.inventoryId == id then [last] else [])
  }

  /** The rows not recorded against any inventory in `ids`, in ledger order: what the
      store's cascade keeps when those inventories are deleted. */
  function DropRowsOf(rows: seq<LedgerRow>, ids: set<int>): seq<LedgerRow>
  {
    if |rows| == 0 then []
    else
      var last := rows[|rows| - 1];
      DropRowsOf(rows[..|rows| - 1], ids) + (if last.inventoryId in ids then [] else [last])
  }

  /** The net quantity change a run of rows records. */
  function SumChanges(rows: seq<LedgerRow>): int
  {
    if |rows| == 0 then 0 else SumChanges(rows[..|rows| - 1]) + rows[|rows| - 1].quantityChange
  }

  /** The query returns exactly the rows of that inventory: nothing else, nothing missed,
      and each as many times as the ledger holds it. */
  lemma {:induction false} RowsForMembers(rows: seq<LedgerRow>, id: int)
    ensures forall r :: r in RowsFor(rows, id) <==> r in rows && r.inventoryId == id
    ensures forall r :: multiset(RowsFor(rows, id))[r] == if r.inventoryId == id then multiset(rows)[r] else 0
    ensures |RowsFor(rows, id)| <= |rows|
  {
    RowsForCounts(rows, id);
    if |rows| > 0 {
      RowsForMembers(rows[..|rows| - 1], id);
    }
  }

  /** The query's rows, counted: a row of that inventory as often as the ledger has it. */
  lemma {:induction false} RowsForCounts(rows: seq<LedgerRow>, id: int)
    ensures forall r :: multiset(RowsFor(rows, id))[r] == if r.inventoryId == id then multiset(rows)[r] else 0
  {
    if |rows| > 0 {
      var init, last := rows[..|rows| - 1], rows[|rows| - 1];
      RowsForCounts(init, id);
      assert rows == init + [last];
      assert multiset(rows) == multiset(init) + multiset{last};
      var tail := if last.inventoryId == id then [last] else [];
      assert multiset(RowsFor(rows, id)) == multiset(RowsFor(init, id)) + multiset(tail);
    }
  }

  /** Appending a row extends that row's inventory's history by it and no other. */
  lemma RowsForAppend(rows: seq<LedgerRow>, row: LedgerRow, id: int)
    ensures RowsFor(rows + [row], id) == RowsFor(rows, id) + (if row.inventoryId == id then [row] else [])
  {
    assert (rows + [row])[..|rows|] == rows;
  }

  /** An inventory no row refers to has an empty history. */
  lemma {:induction false} RowsForNone(rows: seq<LedgerRow>, id: int)
    requires forall k :: 0 <= k < |rows| ==> rows[k].inventoryId != id
    ensures RowsFor(rows, id) == []
  {
    if |rows| > 0 {
      RowsForNone(rows[..|rows| - 1], id);
    }
  }

  /** The cascade keeps exactly the rows of the inventories that survive. */
  lemma {:induction false} DropRowsOfMembers(rows: seq<LedgerRow>, ids: set<int>)
    ensures forall r :: r in DropRowsOf(rows, ids) <==> r in rows && r.inventoryId !in ids
    ensures |DropRowsOf(rows, ids)| <= |rows|
  {
    if |rows| > 0 {
      var init := rows[..|rows| - 1];
      DropRowsOfMembers(init, ids);
      assert rows == init + [rows[|rows| - 1]];
    }
  }

  /** A surviving inventory's history is untouched by the cascade. */
  lemma {:induction false} DropRowsOfKeepsHistory(rows: seq<LedgerRow>, ids: set<int>, id: int)
    requires id !in ids
    ensures RowsFor(DropRowsOf(rows, ids), id) == RowsFor(rows, id)
  {
    if |rows| > 0 {
      var init := rows[..|rows| - 1];
      var last := rows[|rows| - 1];
      DropRowsOfKeepsHistory(init, ids, id);
      if last.inventoryId !in ids {
        assert DropRowsOf(rows, ids) == DropRowsOf(init, ids) + [last];
        RowsForAppend(DropRowsOf(init, ids), last, id);
      } else {
        assert DropRowsOf(rows, ids) == DropRowsOf(init, ids);
        assert RowsFor(rows, id) == RowsFor(init, id);
      }
    }
  }

  /** The cascade keeps the ledger in identity order. */
  lemma {:induction false} DropRowsOfIncreasing(rows: seq<LedgerRow>, ids: set<int>)
    requires IncreasingIds(rows)
    ensures IncreasingIds(DropRowsOf(rows, ids))
  {
    if |rows| > 0 {
      var init := rows[..|rows| - 1];
      var last := rows[|rows| - 1];
      DropRowsOfIncreasing(init, ids);
      DropRowsOfMembers(init, ids);
      var kept := DropRowsOf(init, ids);
      if last.inventoryId !in ids {
        forall j, k | 0 <= j < k < |kept + [last]|
          ensures (kept + [last])[j].transactionId < (kept + [last])[k].transactionId
        {
          if k == |kept| {
            assert kept[j] in init;
          }
        }
      }
    }
  }

  /** The ledger accounts for every stock level: each inventory's quantity is its opening
      quantity plus the net change of the rows recorded against it. */
  ghost predicate Balanced(s: Store, opening: map<int, int>)
  {
    forall i :: i in s.inventories ==>
      i in opening && s.inventories[i].quantity == opening[i] + SumChanges(RowsFor(s.ledger, i))
  }
}
