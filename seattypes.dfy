/** The seat-type table as the reservation handlers use it: the query on
    (conference id, seat type id) whose `.Single()` may throw, and the read-then-write
    counter updates the three reservation loops perform, one line at a time. */
module SeatTypeTable {
  import opened Tables

  /** The seat-type row `id` exists and belongs to conference `c`. */
  predicate Owns(seats: map<Id, SeatType>, c: Id, id: Id)
  {
    id in seats && seats[id].conferenceId == c
  }

  /** QueryList with condition `{ ConferenceId = c, Id = id }`: the keys of the matching rows.
      `.Single()` on the result throws unless it holds exactly one key. */
  function SeatTypesWhere(seats: map<Id, SeatType>, c: Id, id: Id): (found: set<Id>)
    ensures Owns(seats, c, id) ==> found == {id}
    ensures !Owns(seats, c, id) ==> found == {}
  {
    set k | k in seats && k == id && seats[k].conferenceId == c
  }

  /** Every line names a seat-type row of conference `c`, so no `.Single()` in the loop throws. */
  predicate Resolves(seats: map<Id, SeatType>, c: Id, lines: seq<ReservationItem>)
  {
    forall i :: 0 <= i < |lines| ==> Owns(seats, c, lines[i].seatTypeId)
  }

  /** Which counter a loop rewrites: SeatsReserved writes AvailableQuantity - q,
      SeatsReservationCommitted writes Quantity - q, SeatsReservationCancelled writes
      AvailableQuantity + q. */
  datatype Adjustment = Take | Consume | Release

  /** The row written back after reading `row` and one line of quantity `q`. */
  function Adjust(row: SeatType, adj: Adjustment, q: int): (written: SeatType)
    ensures SameExceptCounters(written, row)
    ensures adj != Consume ==> written.quantity == row.quantity
    ensures adj == Consume ==> written.availableQuantity == row.availableQuantity
  {
    match adj
    case Take => row.(availableQuantity := row.availableQuantity - q)
    case Consume => row.(quantity := row.quantity - q)
    case Release => row.(availableQuantity := row.availableQuantity + q)
  }

  /** The two rows agree on everything but the two counters. */
  predicate SameExceptCounters(a: SeatType, b: SeatType)
  {
    a.conferenceId == b.conferenceId && a.info == b.info
  }

  /** The seat-type table after the loop has processed `lines` in order, each step reading
      the row as the previous steps left it and writing the adjusted counter back. A line
      whose row is missing changes nothing here; the handlers never get that far, because
      `.Single()` throws first and the transaction rolls back. */
  function Adjusted(seats: map<Id, SeatType>, adj: Adjustment, lines: seq<ReservationItem>): (r: map<Id, SeatType>)
    ensures r.Keys == seats.Keys
  {
    if lines == [] then seats
    else
      var prev := Adjusted(seats, adj, lines[..|lines| - 1]);
      var line := lines[|lines| - 1];
      if line.seatTypeId in prev then
        prev[line.seatTypeId := Adjust(prev[line.seatTypeId], adj, line.quantity)]
      else prev
  }

  /** The total quantity the lines name for seat type `s`. */
  function Demand(lines: seq<ReservationItem>, s: Id): int
  {
    if lines == [] then 0
    else
      var line := lines[|lines| - 1];
      Demand(lines[..|lines| - 1], s) + (if line.seatTypeId == s then line.quantity else 0)
  }

  /** Reading and writing back line by line has the effect of one adjustment of each row
      by the total quantity its lines name; a repeated seat type accumulates, and only the
      adjusted counter changes. */
  lemma {:induction false} AdjustedAt(seats: map<Id, SeatType>, adj: Adjustment, lines: seq<ReservationItem>, s: Id)
    requires s in seats
    ensures Adjusted(seats, adj, lines)[s] == Adjust(seats[s], adj, Demand(lines, s))
  {
    if lines != [] {
      AdjustedAt(seats, adj, lines[..|lines| - 1], s);
    }
  }

  /** The loop rewrites counters only, so it never changes whether a later `.Single()` throws. */
  lemma AdjustedResolves(seats: map<Id, SeatType>, adj: Adjustment, lines: seq<ReservationItem>, c: Id, id: Id)
    ensures Owns(Adjusted(seats, adj, lines), c, id) <==> Owns(seats, c, id)
  {
    if id in seats {
      AdjustedAt(seats, adj, lines, id);
    }
  }

  /** One iteration of a reservation loop over `lines`: when line i resolves against the
      table the first i lines left, the processed prefix still resolves, and writing the
      adjusted row back gives the table after i + 1 lines. */
  lemma AdjustedStepAt(seats: map<Id, SeatType>, c: Id, adj: Adjustment, lines: seq<ReservationItem>, i: nat,
                        cur: map<Id, SeatType>, id: Id, q: int)
    requires i < |lines| && lines[i] == ReservationItem(id, q)
    requires Resolves(seats, c, lines[..i])
    requires cur == Adjusted(seats, adj, lines[..i])
    requires Owns(cur, c, id)
    ensures Resolves(seats, c, lines[..i + 1])
    ensures adj == Take ==>
      cur[id := cur[id].(availableQuantity := cur[id].availableQuantity - q)] == Adjusted(seats, adj, lines[..i + 1])
    ensures adj == Consume ==>
      cur[id := cur[id].(quantity := cur[id].quantity - q)] == Adjusted(seats, adj, lines[..i + 1])
    ensures adj == Release ==>
      cur[id := cur[id].(availableQuantity := cur[id].availableQuantity + q)] == Adjusted(seats, adj, lines[..i + 1])
  {
    assert lines[..i + 1][..i] == lines[..i];
    AdjustedResolves(seats, adj, lines[..i], c, lines[i].seatTypeId);
  }
}
