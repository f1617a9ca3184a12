/** The conference event handler: one method per handled event, each changing the
    read-model tables in place as the corresponding Insert, Update or Delete does. The
    three reservation handlers run inside a transaction: each step changes the tables,
    and when a seat-type `.Single()` throws, the tables are put back as they were when the
    transaction began and the failure is reported. */
module Handler {
  import opened Tables
  import opened HoldTable
  import opened SeatTypeTable
  import opened Coordinator

  class ConferenceEventHandler {
    /** The conference table, by conference id. */
    var conferences: map<Id, ConferenceRow>
    /** The seat-type table, by seat-type id. */
    var seatTypes: map<Id, SeatType>
    /** The reservation-items table, in insertion order. */
    var holds: seq<Hold>

    constructor ()
      ensures conferences == map[] && seatTypes == map[] && holds == []
    {
      conferences := map[];
      seatTypes := map[];
      holds := [];
    }

    /** The tables the reservation handlers work on. */
    function Stock(): Inventory
      reads this
    {
      Inventory(seatTypes, holds)
    }

    /** ConferenceCreated: insert a row with the event's info, unpublished. */
    method HandleConferenceCreated(id: Id, info: ConferenceInfo)
      modifies this
      ensures conferences.Keys == old(conferences).Keys + {id}
      ensures conferences[id].info == info && !conferences[id].isPublished
      ensures forall k :: k in old(conferences) && k != id ==> conferences[k] == old(conferences)[k]
      ensures seatTypes == old(seatTypes) && holds == old(holds)
    {
      conferences := conferences[id := ConferenceRow(info, false)];
    }

    /** ConferenceUpdated: overwrite every descriptive column of the row `id` and reset
        IsPublished to 0; an update that matches no row changes nothing. */
    method HandleConferenceUpdated(id: Id, info: ConferenceInfo)
      modifies this
      ensures conferences.Keys == old(conferences).Keys
      ensures id in conferences ==> conferences[id].info == info && !conferences[id].isPublished
      ensures forall k :: k in conferences && k != id ==> conferences[k] == old(conferences)[k]
      ensures seatTypes == old(seatTypes) && holds == old(holds)
    {
      if id in conferences {
        conferences := conferences[id := ConferenceRow(info, false)];
      }
    }

    /** ConferencePublished: set IsPublished to 1 on the row `id`, nothing else. */
    method HandleConferencePublished(id: Id)
      modifies this
      ensures conferences.Keys == old(conferences).Keys
      ensures id in conferences ==> conferences[id].isPublished
      ensures forall k :: k in conferences ==> conferences[k].info == old(conferences)[k].info
      ensures forall k :: k in conferences && k != id ==> conferences[k] == old(conferences)[k]
      ensures seatTypes == old(seatTypes) && holds == old(holds)
    {
      if id in conferences {
        conferences := conferences[id := conferences[id].(isPublished := true)];
      }
    }

    /** ConferenceUnpublished: set IsPublished to 0 on the row `id`, nothing else. */
    method HandleConferenceUnpublished(id: Id)
      modifies this
      ensures conferences.Keys == old(conferences).Keys
      ensures id in conferences ==> !conferences[id].isPublished
      ensures forall k :: k in conferences ==> conferences[k].info == old(conferences)[k].info
      ensures forall k :: k in conferences && k != id ==> conferences[k] == old(conferences)[k]
      ensures seatTypes == old(seatTypes) && holds == old(holds)
    {
      if id in conferences {
        conferences := conferences[id := conferences[id].(isPublished := false)];
      }
    }

    /** SeatTypeAdded: insert the row of seat type `id` in conference `conferenceId`, with
        both Quantity and AvailableQuantity set to the event's quantity. */
    method HandleSeatTypeAdded(conferenceId: Id, id: Id, info: SeatTypeInfo, quantity: int)
      modifies this
      ensures seatTypes.Keys == old(seatTypes).Keys + {id}
      ensures seatTypes[id].conferenceId == conferenceId && seatTypes[id].info == info
      ensures seatTypes[id].quantity == quantity && seatTypes[id].availableQuantity == quantity
      ensures forall k :: k in old(seatTypes) && k != id ==> seatTypes[k] == old(seatTypes)[k]
      ensures conferences == old(conferences) && holds == old(holds)
    {
      seatTypes := seatTypes[id := SeatType(conferenceId, info, quantity, quantity)];
    }

    /** SeatTypeUpdated: overwrite name, description and price of the row `id`; its
        conference, Quantity and AvailableQuantity are not touched. */
    method HandleSeatTypeUpdated(id: Id, info: SeatTypeInfo)
      modifies this
      ensures seatTypes.Keys == old(seatTypes).Keys
      ensures id in seatTypes ==> seatTypes[id].info == info
      ensures forall k :: k in seatTypes ==>
        && seatTypes[k].conferenceId == old(seatTypes)[k].conferenceId
        && seatTypes[k].quantity == old(seatTypes)[k].quantity
        && seatTypes[k].availableQuantity == old(seatTypes)[k].availableQuantity
      ensures forall k :: k in seatTypes && k != id ==> seatTypes[k] == old(seatTypes)[k]
      ensures conferences == old(conferences) && holds == old(holds)
    {
      if id in seatTypes {
        seatTypes := seatTypes[id := seatTypes[id].(info := info)];
      }
    }

    /** SeatTypeQuantityChanged: overwrite Quantity and AvailableQuantity of the row `id`
        with the event's values, whatever they are. */
    method HandleSeatTypeQuantityChanged(id: Id, quantity: int, availableQuantity: int)
      modifies this
      ensures seatTypes.Keys == old(seatTypes).Keys
      ensures id in seatTypes ==>
        seatTypes[id].quantity == quantity && seatTypes[id].availableQuantity == availableQuantity
      ensures forall k :: k in seatTypes ==> SameExceptCounters(seatTypes[k], old(seatTypes)[k])
      ensures forall k :: k in seatTypes && k != id ==> seatTypes[k] == old(seatTypes)[k]
      ensures conferences == old(conferences) && holds == old(holds)
    {
      if id in seatTypes {
        seatTypes := seatTypes[id := seatTypes[id].(quantity := quantity, availableQuantity := availableQuantity)];
      }
    }

    /** SeatTypeRemoved: delete the row `id`; hold rows naming it are left in place. */
    method HandleSeatTypeRemoved(id: Id)
      modifies this
      ensures seatTypes.Keys == old(seatTypes).Keys - {id}
      ensures forall k :: k in seatTypes ==> seatTypes[k] == old(seatTypes)[k]
      ensures conferences == old(conferences) && holds == old(holds)
    {
      seatTypes := seatTypes - {id};
    }

    /** SeatsReserved for reservation `r` of conference `c`: all or nothing. It commits
        exactly when every item names a seat type of `c`, and then the tables are those
        `Reserved` describes; otherwise it reports the first item whose query did not
        return one row, and the tables are as before. */
    method HandleSeatsReserved(c: Id, r: Id, items: seq<ReservationItem>) returns (outcome: Outcome)
      modifies this
      ensures conferences == old(conferences)
      ensures outcome.Committed? <==> Reserved(old(Stock()), c, r, items).Some?
      ensures outcome.Committed? ==> Stock() == Reserved(old(Stock()), c, r, items).value
      ensures outcome.RolledBack? ==> Stock() == old(Stock())
      ensures outcome.RolledBack? ==>
        exists i :: (0 <= i < |items|
          && items[i].seatTypeId == outcome.missing
          && !Owns(old(seatTypes), c, items[i].seatTypeId)
          && Resolves(old(seatTypes), c, items[..i]))
    {
      var savedSeats, savedHolds := seatTypes, holds;
      var i := 0;
      while i < |items|
        invariant 0 <= i <= |items|
        invariant conferences == old(conferences)
        invariant Resolves(savedSeats, c, items[..i])
        invariant seatTypes == Adjusted(savedSeats, Take, items[..i])
        invariant holds == savedHolds + HoldRows(c, r, items[..i])
      {
        var item := items[i];
        assert items[..i + 1] == items[..i] + [item];
        holds := holds + [Hold(c, r, item.seatTypeId, item.quantity)];
        HoldRowsStep(c, r, items[..i], item);
        var found := SeatTypesWhere(seatTypes, c, item.seatTypeId);
        AdjustedResolves(savedSeats, Take, items[..i], c, item.seatTypeId);
        if |found| != 1 {
          seatTypes, holds := savedSeats, savedHolds;
          return RolledBack(item.seatTypeId);
        }
        AdjustedStepAt(savedSeats, c, Take, items, i, seatTypes, item.seatTypeId, item.quantity);
        var row := seatTypes[item.seatTypeId];
        seatTypes := seatTypes[item.seatTypeId := row.(availableQuantity := row.availableQuantity - item.quantity)];
        i := i + 1;
      }
      assert items[..i] == items;
      outcome := Committed;
    }

    /** The loop SeatsReservationCommitted and SeatsReservationCancelled run over the hold
        rows they fetched: for each row, query the seat-type row of (c, row's seat type) with
        `.Single()` and write back its adjusted counter (Quantity - quantity for Commit,
        AvailableQuantity + quantity for Cancel). The first failing `.Single()` stops the
        loop and leaves the seat-type table of the transaction unchanged. */
    method AdjustForHolds(c: Id, fetched: seq<Hold>, adj: Adjustment) returns (outcome: Outcome)
      requires adj != Take
      modifies this
      ensures conferences == old(conferences) && holds == old(holds)
      ensures outcome.Committed? <==> Resolves(old(seatTypes), c, HoldLines(fetched))
      ensures outcome.Committed? ==> seatTypes == Adjusted(old(seatTypes), adj, HoldLines(fetched))
      ensures outcome.RolledBack? ==> seatTypes == old(seatTypes) && !Owns(old(seatTypes), c, outcome.missing)
    {
      var savedSeats := seatTypes;
      ghost var lines := HoldLines(fetched);
      var i := 0;
      while i < |fetched|
        invariant 0 <= i <= |fetched|
        invariant conferences == old(conferences) && holds == old(holds)
        invariant Resolves(savedSeats, c, lines[..i])
        invariant seatTypes == Adjusted(savedSeats, adj, lines[..i])
      {
        var hold := fetched[i];
        HoldLinesAt(fetched, i);
        var found := SeatTypesWhere(seatTypes, c, hold.seatTypeId);
        AdjustedResolves(savedSeats, adj, lines[..i], c, hold.seatTypeId);
        if |found| != 1 {
          seatTypes := savedSeats;
          return RolledBack(hold.seatTypeId);
        }
        AdjustedStepAt(savedSeats, c, adj, lines, i, seatTypes, hold.seatTypeId, hold.quantity);
        var row := seatTypes[hold.seatTypeId];
        if adj == Consume {
          seatTypes := seatTypes[hold.seatTypeId := row.(quantity := row.quantity - hold.quantity)];
        } else {
          seatTypes := seatTypes[hold.seatTypeId := row.(availableQuantity := row.availableQuantity + hold.quantity)];
        }
        i := i + 1;
      }
      assert lines[..i] == lines;
      outcome := Committed;
    }

    /** SeatsReservationCommitted: delete the reservation's hold rows, query them, and
        lower Quantity of the seat type of every fetched row; all or nothing. As written
        the query follows the delete, so `Coordinator.SettledAsWritten` applies: it always
        commits and leaves the seat-type table unchanged. */
    method HandleSeatsReservationCommitted(c: Id, r: Id) returns (outcome: Outcome)
      modifies this
      ensures conferences == old(conferences)
      ensures outcome.Committed? <==> Settled(old(Stock()), c, r, Consume).Some?
      ensures outcome.Committed? ==> Stock() == Settled(old(Stock()), c, r, Consume).value
      ensures outcome.RolledBack? ==> Stock() == old(Stock()) && !Owns(old(seatTypes), c, outcome.missing)
      ensures outcome == Committed && seatTypes == old(seatTypes) && holds == WithoutReservation(old(holds), c, r)
    {
      var savedHolds := holds;
      holds := WithoutReservation(holds, c, r);
      var fetched := HoldsOf(holds, c, r);
      outcome := AdjustForHolds(c, fetched, Consume);
      if outcome.RolledBack? {
        holds := savedHolds;
      }
      SettledAsWritten(old(Stock()), c, r, Consume);
    }

    /** SeatsReservationCancelled: delete the reservation's hold rows, query them, and
        raise AvailableQuantity of the seat type of every fetched row; all or nothing. As
        written the query follows the delete, so `Coordinator.SettledAsWritten` applies:
        it always commits and leaves the seat-type table unchanged. */
    method HandleSeatsReservationCancelled(c: Id, r: Id) returns (outcome: Outcome)
      modifies this
      ensures conferences == old(conferences)
      ensures outcome.Committed? <==> Settled(old(Stock()), c, r, Release).Some?
      ensures outcome.Committed? ==> Stock() == Settled(old(Stock()), c, r, Release).value
      ensures outcome.RolledBack? ==> Stock() == old(Stock()) && !Owns(old(seatTypes), c, outcome.missing)
      ensures outcome == Committed && seatTypes == old(seatTypes) && holds == WithoutReservation(old(holds), c, r)
    {
      var savedHolds := holds;
      holds := WithoutReservation(holds, c, r);
      var fetched := HoldsOf(holds, c, r);
      outcome := AdjustForHolds(c, fetched, Release);
      if outcome.RolledBack? {
        holds := savedHolds;
      }
      SettledAsWritten(old(Stock()), c, r, Release);
    }
  }
}
