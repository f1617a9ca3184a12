/** The reservation-items table: the query and the delete the coordinator issues on it,
    the rows a SeatsReserved event inserts, and what those operations do together. */
module HoldTable {
  import opened Tables

  /** The condition `{ ConferenceId, ReservationId }` used by both the delete and the query. */
  predicate OfReservation(h: Hold, c: Id, r: Id)
  {
    h.conferenceId == c && h.reservationId == r
  }

  /** QueryList on the reservation-items table: the rows of reservation (c, r), in table order. */
  function HoldsOf(hs: seq<Hold>, c: Id, r: Id): (found: seq<Hold>)
    ensures |found| <= |hs|
  {
    if hs == [] then []
    else
      var last := hs[|hs| - 1];
      if OfReservation(last, c, r) then HoldsOf(hs[..|hs| - 1], c, r) + [last]
      else HoldsOf(hs[..|hs| - 1], c, r)
  }

  /** Delete on the reservation-items table: every row except those of reservation (c, r). */
  function WithoutReservation(hs: seq<Hold>, c: Id, r: Id): (kept: seq<Hold>)
    ensures |kept| <= |hs|
  {
    if hs == [] then []
    else
      var last := hs[|hs| - 1];
      if OfReservation(last, c, r) then WithoutReservation(hs[..|hs| - 1], c, r)
      else WithoutReservation(hs[..|hs| - 1], c, r) + [last]
  }

  /** The rows SeatsReserved inserts, one per item, in item order. */
  function HoldRows(c: Id, r: Id, items: seq<ReservationItem>): (rows: seq<Hold>)
    ensures |rows| == |items|
  {
    if items == [] then []
    else
      var last := items[|items| - 1];
      HoldRows(c, r, items[..|items| - 1]) + [Hold(c, r, last.seatTypeId, last.quantity)]
  }

  /** The (seat type, quantity) pairs the Commit and Cancel loops read from fetched rows. */
  function HoldLines(hs: seq<Hold>): (lines: seq<ReservationItem>)
    ensures |lines| == |hs|
  {
    if hs == [] then []
    else
      var last := hs[|hs| - 1];
      HoldLines(hs[..|hs| - 1]) + [ReservationItem(last.seatTypeId, last.quantity)]
  }

  /** The i-th inserted row records the i-th item of the event. */
  lemma {:induction false} HoldRowsAt(c: Id, r: Id, items: seq<ReservationItem>, i: nat)
    requires i < |items|
    ensures HoldRows(c, r, items)[i] == Hold(c, r, items[i].seatTypeId, items[i].quantity)
  {
    if i < |items| - 1 {
      HoldRowsAt(c, r, items[..|items| - 1], i);
    }
  }

  /** The i-th line read is the seat type and quantity of the i-th fetched row. */
  lemma {:induction false} HoldLinesAt(hs: seq<Hold>, i: nat)
    requires i < |hs|
    ensures HoldLines(hs)[i] == ReservationItem(hs[i].seatTypeId, hs[i].quantity)
  {
    if i < |hs| - 1 {
      HoldLinesAt(hs[..|hs| - 1], i);
    }
  }

  /** One more item inserted by the loop. */
  lemma HoldRowsStep(c: Id, r: Id, items: seq<ReservationItem>, item: ReservationItem)
    ensures HoldRows(c, r, items + [item]) == HoldRows(c, r, items) + [Hold(c, r, item.seatTypeId, item.quantity)]
  {
    assert (items + [item])[..|items|] == items;
  }

  /** The query on a table with one more row at the end. */
  lemma QuerySnoc(hs: seq<Hold>, h: Hold, c: Id, r: Id)
    ensures HoldsOf(hs + [h], c, r) == if OfReservation(h, c, r) then HoldsOf(hs, c, r) + [h] else HoldsOf(hs, c, r)
  {
    assert (hs + [h])[..|hs|] == hs;
  }

  /** The delete on a table with one more row at the end. */
  lemma DeleteSnoc(hs: seq<Hold>, h: Hold, c: Id, r: Id)
    ensures WithoutReservation(hs + [h], c, r)
      == if OfReservation(h, c, r) then WithoutReservation(hs, c, r) else WithoutReservation(hs, c, r) + [h]
  {
    assert (hs + [h])[..|hs|] == hs;
  }

  /** The query returns exactly the rows of the table that belong to reservation (c, r). */
  lemma {:induction false} InQuery(hs: seq<Hold>, c: Id, r: Id, h: Hold)
    ensures h in HoldsOf(hs, c, r) <==> h in hs && OfReservation(h, c, r)
  {
    if hs != [] {
      var init, last := hs[..|hs| - 1], hs[|hs| - 1];
      InQuery(init, c, r, h);
      assert hs == init + [last];
    }
  }

  /** The delete keeps exactly the rows of the table that do not belong to reservation (c, r). */
  lemma {:induction false} InDelete(hs: seq<Hold>, c: Id, r: Id, h: Hold)
    ensures h in WithoutReservation(hs, c, r) <==> h in hs && !OfReservation(h, c, r)
  {
    if hs != [] {
      var init, last := hs[..|hs| - 1], hs[|hs| - 1];
      InDelete(init, c, r, h);
      assert hs == init + [last];
    }
  }

  /** After the delete, no row of reservation (c, r) is left. */
  lemma {:induction false} NoneLeft(hs: seq<Hold>, c: Id, r: Id)
    ensures forall h :: h in WithoutReservation(hs, c, r) ==> !OfReservation(h, c, r)
  {
    if hs != [] {
      NoneLeft(hs[..|hs| - 1], c, r);
    }
  }

  /** A query issued after the delete, in the same transaction, returns no row. */
  lemma {:induction false} QueryAfterDelete(hs: seq<Hold>, c: Id, r: Id)
    ensures HoldsOf(WithoutReservation(hs, c, r), c, r) == []
  {
    if hs != [] {
      var init, last := hs[..|hs| - 1], hs[|hs| - 1];
      QueryAfterDelete(init, c, r);
      QuerySnoc(WithoutReservation(init, c, r), last, c, r);
    }
  }

  /** The delete keeps, in order, every row of every other reservation. */
  lemma {:induction false} DeleteKeepsOthers(hs: seq<Hold>, c: Id, r: Id, c2: Id, r2: Id)
    requires c2 != c || r2 != r
    ensures HoldsOf(WithoutReservation(hs, c, r), c2, r2) == HoldsOf(hs, c2, r2)
  {
    if hs != [] {
      var init, last := hs[..|hs| - 1], hs[|hs| - 1];
      DeleteKeepsOthers(init, c, r, c2, r2);
      QuerySnoc(WithoutReservation(init, c, r), last, c2, r2);
    }
  }

  /** The delete removes exactly the rows the query returns: together they are the table. */
  lemma {:induction false} DeleteSplitsTable(hs: seq<Hold>, c: Id, r: Id)
    ensures multiset(WithoutReservation(hs, c, r)) + multiset(HoldsOf(hs, c, r)) == multiset(hs)
  {
    if hs != [] {
      var init, last := hs[..|hs| - 1], hs[|hs| - 1];
      DeleteSplitsTable(init, c, r);
      assert hs == init + [last];
    }
  }

  /** Deleting the rows of a reservation twice leaves what deleting them once left. */
  lemma {:induction false} DeleteIdempotent(hs: seq<Hold>, c: Id, r: Id)
    ensures WithoutReservation(WithoutReservation(hs, c, r), c, r) == WithoutReservation(hs, c, r)
  {
    if hs != [] {
      var init, last := hs[..|hs| - 1], hs[|hs| - 1];
      DeleteIdempotent(init, c, r);
      DeleteSnoc(WithoutReservation(init, c, r), last, c, r);
    }
  }

  /** Every row SeatsReserved appends belongs to its reservation: the query finds them
      after the rows already there, and the delete removes all of them. */
  lemma {:induction false} InsertedRowsBelong(hs: seq<Hold>, c: Id, r: Id, items: seq<ReservationItem>)
    ensures HoldsOf(hs + HoldRows(c, r, items), c, r) == HoldsOf(hs, c, r) + HoldRows(c, r, items)
    ensures WithoutReservation(hs + HoldRows(c, r, items), c, r) == WithoutReservation(hs, c, r)
  {
    if items == [] {
      assert hs + HoldRows(c, r, items) == hs;
    } else {
      var init, last := items[..|items| - 1], items[|items| - 1];
      var row := Hold(c, r, last.seatTypeId, last.quantity);
      InsertedRowsBelong(hs, c, r, init);
      assert hs + HoldRows(c, r, items) == (hs + HoldRows(c, r, init)) + [row];
      QuerySnoc(hs + HoldRows(c, r, init), row, c, r);
      DeleteSnoc(hs + HoldRows(c, r, init), row, c, r);
    }
  }
}
