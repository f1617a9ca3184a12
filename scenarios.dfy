/** Event sequences driven through the handler, with what the handler's contracts and the
    coordinator lemmas let a caller conclude about the tables afterwards. */
module Scenarios {
  import opened Tables
  import opened HoldTable
  import opened SeatTypeTable
  import opened Coordinator
  import opened Handler

  const C1: Id := 1
  const S1: Id := 11
  const S2: Id := 12
  const R1: Id := 21
  const R2: Id := 22

  const Info := ConferenceInfo("code", Owner("owner", "owner@example.org"), "slug", "Conference",
    "description", "location", "tagline", "#conf", 0, 1)
  const Full := SeatTypeInfo("Full pass", "all days", 100.0)

  /** A conference C1 with one seat type S1 of 100 seats and a reservation R1 of 10 of them. */
  method ReservedTen() returns (h: ConferenceEventHandler)
    ensures fresh(h)
    ensures h.seatTypes.Keys == {S1}
    ensures h.seatTypes[S1] == SeatType(C1, Full, 100, 90)
    ensures h.holds == [Hold(C1, R1, S1, 10)]
  {
    h := new ConferenceEventHandler();
    h.HandleConferenceCreated(C1, Info);
    h.HandleSeatTypeAdded(C1, S1, Full, 100);
    assert h.seatTypes[S1].availableQuantity == 100;
    var items := [ReservationItem(S1, 10)];
    assert Resolves(h.seatTypes, C1, items);
    ReserveEffect(h.Stock(), C1, R1, items);
    assert Demand(items, S1) == 10 by {
      assert items[..0] == [];
    }
    assert HoldRows(C1, R1, items) == [Hold(C1, R1, S1, 10)] by {
      HoldRowsAt(C1, R1, items, 0);
    }
    var outcome := h.HandleSeatsReserved(C1, R1, items);
    assert outcome == Committed;
  }

  /** Reserve then Commit, as written: the hold row is gone, AvailableQuantity stays 90,
      and Quantity stays 100 rather than dropping to 90. */
  method CommitAfterReserve()
  {
    var h := ReservedTen();
    SettledAsWritten(h.Stock(), C1, R1, Consume);
    var outcome := h.HandleSeatsReservationCommitted(C1, R1);
    assert outcome == Committed;
    assert h.holds == [];
    assert h.seatTypes[S1].quantity == 100;
    assert h.seatTypes[S1].availableQuantity == 90;
  }

  /** Reserve then Cancel, as written: the hold row is gone but the 10 seats are not
      released, so AvailableQuantity stays 90. */
  method CancelAfterReserve()
  {
    var h := ReservedTen();
    SettledAsWritten(h.Stock(), C1, R1, Release);
    var outcome := h.HandleSeatsReservationCancelled(C1, R1);
    assert outcome == Committed;
    assert h.holds == [];
    assert h.seatTypes[S1].quantity == 100;
    assert h.seatTypes[S1].availableQuantity == 90;
  }

  /** A reservation whose second item names an unknown seat type rolls back as a whole:
      neither hold row is kept and S1 is not debited. */
  method ReserveRollsBack()
  {
    var h := ReservedTen();
    var items := [ReservationItem(S1, 5), ReservationItem(S2, 1)];
    var outcome := h.HandleSeatsReserved(C1, R2, items);
    assert !Resolves(h.seatTypes, C1, items) by {
      assert !Owns(h.seatTypes, C1, items[1].seatTypeId);
    }
    assert outcome.RolledBack?;
    assert h.holds == [Hold(C1, R1, S1, 10)];
    assert h.seatTypes[S1].availableQuantity == 90;
  }

  /** Nothing keeps AvailableQuantity within [0, Quantity]: a reservation larger than what
      is available drives it negative, and a quantity change may set it above Quantity. */
  method CountersUnguarded()
  {
    var h := ReservedTen();
    var items := [ReservationItem(S1, 95)];
    assert Resolves(h.seatTypes, C1, items);
    ReserveEffect(h.Stock(), C1, R2, items);
    assert Demand(items, S1) == 95 by {
      assert items[..0] == [];
    }
    var outcome := h.HandleSeatsReserved(C1, R2, items);
    assert h.seatTypes[S1].availableQuantity == -5;
    h.HandleSeatTypeQuantityChanged(S1, 10, 20);
    assert h.seatTypes[S1].availableQuantity > h.seatTypes[S1].quantity;
  }

  /** Updating a published conference unpublishes it. */
  method UpdateUnpublishes()
  {
    var h := new ConferenceEventHandler();
    h.HandleConferenceCreated(C1, Info);
    h.HandleConferencePublished(C1);
    assert h.conferences[C1].isPublished;
    h.HandleConferenceUpdated(C1, Info.(name := "Renamed"));
    assert h.conferences[C1].info.name == "Renamed";
    assert !h.conferences[C1].isPublished;
  }
}
