/** Rows of the three read-model tables written by the conference event handler,
    the event payloads they are built from, and the outcome of a transactional handler. */
module Tables {

  /** Aggregate, seat-type and reservation identities (GUIDs and strings in the source),
      which the handlers only ever compare for equality. */
  type Id = int

  /** Start and end dates are copied from events into rows and never inspected. */
  type Timestamp = int

  /** Seat prices are decimals in the source; they are copied, never computed with. */
  type Price = real

  datatype Option<+T> = None | Some(value: T)

  datatype Owner = Owner(name: string, email: string)

  /** The descriptive block carried by ConferenceCreated and ConferenceUpdated. */
  datatype ConferenceInfo = ConferenceInfo(
    accessCode: string,
    owner: Owner,
    slug: string,
    name: string,
    description: string,
    location: string,
    tagline: string,
    twitterSearch: string,
    startDate: Timestamp,
    endDate: Timestamp)

  /** A row of the conference table: every descriptive column plus the IsPublished flag. */
  datatype ConferenceRow = ConferenceRow(info: ConferenceInfo, isPublished: bool)

  /** The descriptive part of a seat type: what SeatTypeUpdated overwrites. */
  datatype SeatTypeInfo = SeatTypeInfo(name: string, description: string, price: Price)

  /** A row of the seat-type table; the row's own id is the key of the table map. */
  datatype SeatType = SeatType(
    conferenceId: Id,
    info: SeatTypeInfo,
    quantity: int,
    availableQuantity: int)

  /** One entry of a SeatsReserved event. */
  datatype ReservationItem = ReservationItem(seatTypeId: Id, quantity: int)

  /** A row of the reservation-items table (a hold of seats for one reservation and seat type). */
  datatype Hold = Hold(conferenceId: Id, reservationId: Id, seatTypeId: Id, quantity: int)

  /** How a transactional handler ended: committed, or rolled back because the
      seat-type query for `missing` did not return exactly one row. */
  datatype Outcome = Committed | RolledBack(missing: Id)
}
