# Conference read-model projector, modelled in Dafny

The conference management read model is kept up to date by `ConferenceEventHandler`.
It handles eleven domain events. Each one becomes inserts, updates and deletes on three tables:

- the conference table: descriptive columns and an `IsPublished` flag;
- the seat-type table: owning conference, name, description, price, `Quantity` and `AvailableQuantity`;
- the reservation-items table ("holds"): conference, reservation, seat type and quantity.

The model is a class, `Handler.ConferenceEventHandler`.
It has one field per table: `conferences` and `seatTypes` are maps keyed by id, and `holds` is a sequence of rows in insertion order.
Each `Handle` overload is one method that changes those fields in place.

The eight single-row handlers state the row they write and that every other row and table stays the same.

The three reservation handlers (SeatsReserved, SeatsReservationCommitted, SeatsReservationCancelled) are loops inside a transaction.
Each step of the loop changes the tables.
A seat-type query whose `.Single()` does not find exactly one row (conference id, seat type id) makes the method restore the tables it saved when the transaction began.
It then returns `RolledBack(seatTypeId)`.
Otherwise it returns `Committed`.
Commit and Cancel run the same counter loop, which is the method `AdjustForHolds` with the adjustment as a parameter.
Each method is proved against a pure specification function in module `Coordinator`: `Reserved` for SeatsReserved, and `Settled` for Commit (`Consume`) and Cancel (`Release`).
The properties of the handlers are proved as lemmas about those functions and about the table operations in `HoldTable` and `SeatTypeTable`.

Modules: `Tables` (rows, events, outcome), `HoldTable` (query, delete and insert on the reservation-items table), `SeatTypeTable` (the `.Single()` query and the read-then-write counter loop), `Coordinator` (the three reservation transactions as functions), `Handler` (the class) and `Scenarios` (event sequences driven through the class).

## What the code does, where its own comments say otherwise

- Commit and Cancel delete the reservation's hold rows first (`:181`, `:215`).
  Only then do they query those rows (`:184-186`, `:218-220`), inside the same transaction.
  The query therefore returns nothing, and the counter loop runs zero times.
  As written, Commit never lowers `Quantity`, and Cancel never gives the held seats back to `AvailableQuantity`.
  `Coordinator.SettledAsWritten` proves this for every input.
  `Coordinator.ReserveThenSettle` shows the consequence: after a reservation and its Commit or Cancel, `AvailableQuantity` is still lowered by the reserved amount, and `Quantity` is unchanged.
  The source's comments say otherwise: the loop at `:183` is headed "update the seat quantity" and the one at `:217` "update the seats' available quantity", so both were meant to change the counters. The model does not claim that they do.
- The bound `0 <= AvailableQuantity <= Quantity`, which the two columns suggest, is not kept by the code.
  SeatsReserved subtracts without a guard (`:159`).
  SeatTypeQuantityChanged writes whatever the event carries (`:124-125`).
  `Scenarios.CountersUnguarded` drives both cases.
- ConferenceUpdated resets `IsPublished` to 0 (`:72`), as `Scenarios.UpdateUnpublishes` shows.

## Model

| member | source | states |
|---|---|---|
| `Handler.ConferenceEventHandler.HandleConferenceCreated` | ConferenceManagement.ReadModel/Handlers/ConferenceEventHandler.cs:31-53 | a row with the event's info and `IsPublished` false is added under the conference id; every other row of every table is unchanged |
| `Handler.ConferenceEventHandler.HandleConferenceUpdated` | ConferenceManagement.ReadModel/Handlers/ConferenceEventHandler.cs:54-75 | the row with that id gets the new descriptive fields and `IsPublished` false; no row is added or removed; other rows are unchanged; a missing id changes nothing |
| `Handler.ConferenceEventHandler.HandleConferencePublished` | ConferenceManagement.ReadModel/Handlers/ConferenceEventHandler.cs:76-82 | only the flag of that row changes, to true; the descriptive fields of every row and all other rows are unchanged |
| `Handler.ConferenceEventHandler.HandleConferenceUnpublished` | ConferenceManagement.ReadModel/Handlers/ConferenceEventHandler.cs:83-89 | only the flag of that row changes, to false; the descriptive fields of every row and all other rows are unchanged |
| `Handler.ConferenceEventHandler.HandleSeatTypeAdded` | ConferenceManagement.ReadModel/Handlers/ConferenceEventHandler.cs:90-105 | a seat-type row is added for the conference with `Quantity` and `AvailableQuantity` both equal to the event's quantity; other rows are unchanged |
| `Handler.ConferenceEventHandler.HandleSeatTypeUpdated` | ConferenceManagement.ReadModel/Handlers/ConferenceEventHandler.cs:106-117 | only name, description and price of that row change; conference id, `Quantity` and `AvailableQuantity` of every row stay as they were |
| `Handler.ConferenceEventHandler.HandleSeatTypeQuantityChanged` | ConferenceManagement.ReadModel/Handlers/ConferenceEventHandler.cs:118-128 | `Quantity` and `AvailableQuantity` of that row become exactly the event's values, unchecked; nothing else changes |
| `Handler.ConferenceEventHandler.HandleSeatTypeRemoved` | ConferenceManagement.ReadModel/Handlers/ConferenceEventHandler.cs:129-135 | the row with that id is gone; every other row is unchanged; hold rows naming it stay |
| `Handler.ConferenceEventHandler.HandleSeatsReserved` | ConferenceManagement.ReadModel/Handlers/ConferenceEventHandler.cs:136-171 | all or nothing: it commits if and only if every item names a seat type of the conference, leaving the tables `Coordinator.Reserved` gives; otherwise it names the first failing item and both tables equal their pre-state |
| `Handler.ConferenceEventHandler.HandleSeatsReservationCommitted` | ConferenceManagement.ReadModel/Handlers/ConferenceEventHandler.cs:172-205 | delete, then query, then lower `Quantity` per fetched row, all or nothing; on commit the tables are those `Coordinator.Settled` gives with `Consume`, on rollback they are the pre-state; as written it always commits, leaves the seat-type table unchanged and only deletes the reservation's hold rows |
| `Handler.ConferenceEventHandler.HandleSeatsReservationCancelled` | ConferenceManagement.ReadModel/Handlers/ConferenceEventHandler.cs:206-239 | delete, then query, then raise `AvailableQuantity` per fetched row, all or nothing; on commit the tables are those `Coordinator.Settled` gives with `Release`, on rollback they are the pre-state; as written it always commits, leaves the seat-type table unchanged and only deletes the reservation's hold rows |
| `Handler.ConferenceEventHandler.AdjustForHolds` | ConferenceManagement.ReadModel/Handlers/ConferenceEventHandler.cs:187-195 | the counter loop of Commit and Cancel over the fetched hold rows: it completes if and only if every row's seat type belongs to the conference, leaving the seat-type table `SeatTypeTable.Adjusted` gives; otherwise it names a seat type that does not resolve and leaves the table as it found it; the hold table is untouched |
| `Coordinator.Reserved` | ConferenceManagement.ReadModel/Handlers/ConferenceEventHandler.cs:144-163 | defines the committed SeatsReserved transaction: present exactly when every item resolves; then it keeps the seat-type keys, adjusts `AvailableQuantity` by each item in turn, and appends one hold row per item after the existing rows, which stay as they were |
| `Coordinator.Settled` | ConferenceManagement.ReadModel/Handlers/ConferenceEventHandler.cs:181-197 | defines the Commit and Cancel transactions in the written order (delete, query, counter loop); when committed it keeps the seat-type keys and never adds hold rows |
| `Coordinator.ReserveEffect` | ConferenceManagement.ReadModel/Handlers/ConferenceEventHandler.cs:144-163 | a committed reservation lowers each seat type's `AvailableQuantity` by the sum of the quantities of the items naming it (repeats accumulate); `Quantity` and the other columns stay; the reservation gains exactly one hold row per item, in item order |
| `Coordinator.SettledAsWritten` | ConferenceManagement.ReadModel/Handlers/ConferenceEventHandler.cs:181-197 | Commit and Cancel always commit, leave every seat-type row unchanged, and only delete the reservation's hold rows |
| `Coordinator.SettledRemovesReservation` | ConferenceManagement.ReadModel/Handlers/ConferenceEventHandler.cs:215-231 | after Commit or Cancel no hold row of that (conference, reservation) remains; the rows of every other reservation are unchanged and in order |
| `Coordinator.SettledIdempotent` | ConferenceManagement.ReadModel/Handlers/ConferenceEventHandler.cs:181-197 | applying Commit or Cancel a second time gives the same tables as applying it once |
| `Coordinator.ReserveThenSettle` | ConferenceManagement.ReadModel/Handlers/ConferenceEventHandler.cs:144-229 | after SeatsReserved and then Commit or Cancel of the same reservation, the hold rows are gone, `AvailableQuantity` stays lowered by the reserved amount, and `Quantity` is unchanged |
| `HoldTable.HoldsOf` | ConferenceManagement.ReadModel/Handlers/ConferenceEventHandler.cs:184-186 | the query of a reservation's hold rows returns at most as many rows as the table holds |
| `HoldTable.WithoutReservation` | ConferenceManagement.ReadModel/Handlers/ConferenceEventHandler.cs:181 | the delete never adds rows |
| `HoldTable.InQuery` | ConferenceManagement.ReadModel/Handlers/ConferenceEventHandler.cs:184-186 | a row is in the query result if and only if it is in the table and belongs to the (conference, reservation) |
| `HoldTable.InDelete` | ConferenceManagement.ReadModel/Handlers/ConferenceEventHandler.cs:181 | a row survives the delete if and only if it is in the table and does not belong to the (conference, reservation) |
| `HoldTable.NoneLeft` | ConferenceManagement.ReadModel/Handlers/ConferenceEventHandler.cs:215 | after the delete no row of that (conference, reservation) is left |
| `HoldTable.QueryAfterDelete` | ConferenceManagement.ReadModel/Handlers/ConferenceEventHandler.cs:181-187 | the query issued after the delete on the same reservation returns no row, so the loop body never runs |
| `HoldTable.DeleteKeepsOthers` | ConferenceManagement.ReadModel/Handlers/ConferenceEventHandler.cs:181 | the delete keeps every row of every other reservation, in the same order |
| `HoldTable.DeleteSplitsTable` | ConferenceManagement.ReadModel/Handlers/ConferenceEventHandler.cs:181-186 | the rows the delete removes are exactly the rows the query would return: kept rows and queried rows together are the table |
| `HoldTable.DeleteIdempotent` | ConferenceManagement.ReadModel/Handlers/ConferenceEventHandler.cs:215 | deleting a reservation's rows twice leaves the same table as deleting them once |
| `HoldTable.HoldRows` | ConferenceManagement.ReadModel/Handlers/ConferenceEventHandler.cs:147-153 | SeatsReserved inserts as many hold rows as there are items |
| `HoldTable.HoldRowsAt` | ConferenceManagement.ReadModel/Handlers/ConferenceEventHandler.cs:144-153 | the i-th inserted row carries the conference, the reservation, and the i-th item's seat type and quantity |
| `HoldTable.InsertedRowsBelong` | ConferenceManagement.ReadModel/Handlers/ConferenceEventHandler.cs:149-150 | every inserted row belongs to the reservation: the query finds all of them and the delete removes all of them |
| `HoldTable.HoldLines` | ConferenceManagement.ReadModel/Handlers/ConferenceEventHandler.cs:221 | the loop reads one (seat type, quantity) line per fetched row |
| `HoldTable.HoldLinesAt` | ConferenceManagement.ReadModel/Handlers/ConferenceEventHandler.cs:187-192 | the i-th line is the seat type and quantity of the i-th fetched row |
| `SeatTypeTable.SeatTypesWhere` | ConferenceManagement.ReadModel/Handlers/ConferenceEventHandler.cs:156-157 | the query on (conference id, seat type id) returns that one row exactly when it exists and belongs to the conference, and no row otherwise; `.Single()` throws in the second case |
| `SeatTypeTable.Adjust` | ConferenceManagement.ReadModel/Handlers/ConferenceEventHandler.cs:159 | the single row written back by one step of a counter loop (`:159` AvailableQuantity - q, `:192` Quantity - q, `:226` AvailableQuantity + q): only the named counter changes; conference and descriptive columns stay |
| `SeatTypeTable.Adjusted` | ConferenceManagement.ReadModel/Handlers/ConferenceEventHandler.cs:223-228 | the read-then-write counter loop never adds or removes a seat-type row |
| `SeatTypeTable.AdjustedAt` | ConferenceManagement.ReadModel/Handlers/ConferenceEventHandler.cs:156-161 | processing the lines one by one, each read seeing the previous writes, equals one adjustment of each row by the total quantity its lines name |
| `SeatTypeTable.AdjustedResolves` | ConferenceManagement.ReadModel/Handlers/ConferenceEventHandler.cs:189-190 | the counter writes never change whether a later `.Single()` finds its row |
| `SeatTypeTable.AdjustedStepAt` | ConferenceManagement.ReadModel/Handlers/ConferenceEventHandler.cs:224-228 | one iteration of the loop: writing back the adjusted counter of a resolving line gives the table after one more line |

## Left out

- The connection factory, `connection.Open()`, `using` disposal, and the internals of the Dapper `Insert`/`Update`/`Delete`/`QueryList` extensions are external library code. Only their effect on the tables is modelled.
- `ConfigSettings` table names, the `[Component]` attribute, `IHandlingContext` and ENode's dispatch of events to overloads are wiring. Each overload is called directly.
- Transaction isolation and concurrent reservations are out of scope. Events are applied one at a time, so the read-then-write pairs cannot race.
- Storage failures other than `.Single()` (connectivity, deadlocks, constraint violations) are not modelled. They come from the database, which is not part of this model. In the single-row handlers they would propagate unhandled. In the transactional handlers they would roll back like a `.Single()` failure.
- Inserting a conference or seat type whose id already exists is modelled as overwriting the row. The table's key constraints are not visible in the code.
- The hold table has no visible key, so duplicate hold rows are kept. Query results come back in insertion order.
- Quantities are unbounded integers. The event classes that declare their width are not part of this model, so a 32-bit wrap-around on `AvailableQuantity - quantity` is not modelled.
- `IsPublished` (0 or 1 in the table) is a boolean. Prices and dates are copied values with no arithmetic on them.
- An `Update` whose condition matches no row changes nothing.
