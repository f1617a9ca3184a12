/** The reservation inventory coordinator as state transformations: what a committed
    SeatsReserved, SeatsReservationCommitted or SeatsReservationCancelled transaction does
    to the seat-type table and the reservation-items table, written as the handlers
    execute it, and what follows from that order of statements. */
module Coordinator {
  import opened Tables
  import opened HoldTable
  import opened SeatTypeTable

  /** The two tables a reservation transaction reads and writes. */
  datatype Inventory = Inventory(seatTypes: map<Id, SeatType>, holds: seq<Hold>)

  /** SeatsReserved: for each item, insert its hold row, then read the seat-type row of
      (c, item's seat type) and write AvailableQuantity - quantity back. None when some
      item's query does not return exactly one row (the transaction rolls back). */
  function Reserved(inv: Inventory, c: Id, r: Id, items: seq<ReservationItem>): (after: Option<Inventory>)
    ensures after.Some? ==> after.value.seatTypes.Keys == inv.seatTypes.Keys
    ensures after.Some? ==> |after.value.holds| == |inv.holds| + |items|
    ensures after.Some? ==> after.value.holds[..|inv.holds|] == inv.holds
  {
    if Resolves(inv.seatTypes, c, items) then
      Some(Inventory(Adjusted(inv.seatTypes, Take, items), inv.holds + HoldRows(c, r, items)))
    else None
  }

  /** SeatsReservationCommitted (adj = Consume) and SeatsReservationCancelled (adj = Release)
      in their written order: delete the reservation's hold rows, then query the hold rows
      of that reservation, then adjust one seat-type row per fetched row. None when a
      fetched row's seat-type query does not return exactly one row. */
  function Settled(inv: Inventory, c: Id, r: Id, adj: Adjustment): (after: Option<Inventory>)
    ensures after.Some? ==> after.value.seatTypes.Keys == inv.seatTypes.Keys
    ensures after.Some? ==> |after.value.holds| <= |inv.holds|
  {
    var kept := WithoutReservation(inv.holds, c, r);
    var lines := HoldLines(HoldsOf(kept, c, r));
    if Resolves(inv.seatTypes, c, lines) then
      Some(Inventory(Adjusted(inv.seatTypes, adj, lines), kept))
    else None
  }

  /** A committed reservation lowers each seat type's AvailableQuantity by the sum of the
      quantities of the items naming it, leaves every other column alone, and adds exactly
      the items' hold rows to that reservation. Nothing keeps AvailableQuantity >= 0. */
  lemma ReserveEffect(inv: Inventory, c: Id, r: Id, items: seq<ReservationItem>)
    requires Resolves(inv.seatTypes, c, items)
    ensures Reserved(inv, c, r, items).Some?
    ensures var after := Reserved(inv, c, r, items).value;
      && after.seatTypes.Keys == inv.seatTypes.Keys
      && (forall s :: s in inv.seatTypes ==>
            && after.seatTypes[s].availableQuantity == inv.seatTypes[s].availableQuantity - Demand(items, s)
            && after.seatTypes[s].quantity == inv.seatTypes[s].quantity
            && SameExceptCounters(after.seatTypes[s], inv.seatTypes[s]))
      && HoldsOf(after.holds, c, r) == HoldsOf(inv.holds, c, r) + HoldRows(c, r, items)
  {
    forall s | s in inv.seatTypes
      ensures Adjusted(inv.seatTypes, Take, items)[s]
        == inv.seatTypes[s].(availableQuantity := inv.seatTypes[s].availableQuantity - Demand(items, s))
    {
      AdjustedAt(inv.seatTypes, Take, items, s);
    }
    InsertedRowsBelong(inv.holds, c, r, items);
  }

  /** As written, the delete runs before the query, so the query returns nothing, the
      counter loop runs zero times and the transaction always commits: Commit and Cancel
      only delete the reservation's hold rows and leave every seat-type row unchanged. */
  lemma SettledAsWritten(inv: Inventory, c: Id, r: Id, adj: Adjustment)
    ensures Settled(inv, c, r, adj) == Some(Inventory(inv.seatTypes, WithoutReservation(inv.holds, c, r)))
  {
    QueryAfterDelete(inv.holds, c, r);
  }

  /** After Commit or Cancel no hold row of the reservation remains, and the rows of every
      other reservation are still there, in the same order. */
  lemma SettledRemovesReservation(inv: Inventory, c: Id, r: Id, adj: Adjustment, c2: Id, r2: Id)
    requires c2 != c || r2 != r
    ensures Settled(inv, c, r, adj).Some?
    ensures HoldsOf(Settled(inv, c, r, adj).value.holds, c, r) == []
    ensures HoldsOf(Settled(inv, c, r, adj).value.holds, c2, r2) == HoldsOf(inv.holds, c2, r2)
  {
    SettledAsWritten(inv, c, r, adj);
    QueryAfterDelete(inv.holds, c, r);
    DeleteKeepsOthers(inv.holds, c, r, c2, r2);
  }

  /** Redelivering Commit or Cancel after it was applied changes nothing. */
  lemma SettledIdempotent(inv: Inventory, c: Id, r: Id, adj: Adjustment)
    ensures Settled(inv, c, r, adj).Some?
    ensures Settled(Settled(inv, c, r, adj).value, c, r, adj) == Settled(inv, c, r, adj)
  {
    SettledAsWritten(inv, c, r, adj);
    var once := Settled(inv, c, r, adj).value;
    SettledAsWritten(once, c, r, adj);
    DeleteIdempotent(inv.holds, c, r);
  }

  /** A reservation followed by its Commit or Cancel: the hold rows of the reservation are
      gone, but the seats taken at reservation time stay taken (Cancel does not give them
      back) and Quantity is never reduced (Commit does not consume them). */
  lemma ReserveThenSettle(inv: Inventory, c: Id, r: Id, items: seq<ReservationItem>, adj: Adjustment)
    requires Resolves(inv.seatTypes, c, items)
    ensures Reserved(inv, c, r, items).Some?
    ensures var reserved := Reserved(inv, c, r, items).value;
      && Settled(reserved, c, r, adj).Some?
      && Settled(reserved, c, r, adj).value.holds == WithoutReservation(inv.holds, c, r)
      && Settled(reserved, c, r, adj).value.seatTypes.Keys == inv.seatTypes.Keys
      && (forall s :: s in inv.seatTypes ==>
            && Settled(reserved, c, r, adj).value.seatTypes[s].availableQuantity
               == inv.seatTypes[s].availableQuantity - Demand(items, s)
            && Settled(reserved, c, r, adj).value.seatTypes[s].quantity == inv.seatTypes[s].quantity)
  {
    ReserveEffect(inv, c, r, items);
    var reserved := Reserved(inv, c, r, items).value;
    SettledAsWritten(reserved, c, r, adj);
    InsertedRowsBelong(inv.holds, c, r, items);
  }
}
