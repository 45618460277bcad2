# Table booking rules — a verified Dafny model

This project models the booking core of a small restaurant table-reservation
web application (ASP.NET MVC over Entity Framework). The store holds dining
tables (`DinningTable`: id, seating capacity, availability flag) and bookings
(`Booking`: id, table id, reservation date, time slot). The only business
rule lives in `BookingController.Create` (POST). It checks, in this order:

1. the table exists;
2. the table is available;
3. the reservation date is not before 2023-07-01;
4. no booking of the table lies on the same calendar day with the same slot.

Only then does it add one booking (date truncated to the day) and mark the
table unavailable. Around it sit the booking form's pre-check (`Create` GET),
the `Confirmation` lookup, and the two table listings of `TableController`.

Files and modules:

- `linq.dfy`, module `Linq`: the query operators the controllers use
  (`FirstOrDefault` as `FirstIndex`, `Any`, `Where`) as functions over sequences.
- `models.dfy`, module `Models`: `DateTime` and `TimeSpan` as tick counts,
  `Date` (day truncation), `DateTimeOf` (the `DateTime(year, month, day)`
  constructor), the two entities, the database contents `DbState`, and the
  mutable database context `ApplicationDbContext`.
- `table_controller.dfy`, module `TableController`: the listings.
- `booking_controller.dfy`, module `BookingController`: the GET pre-check,
  the POST rule as a specification function `CreateBooking` and as a method
  `Create` that updates an `ApplicationDbContext` in place, and `Confirmation`.
- `booking_properties.dfy`, module `BookingProperties`: properties across
  whole stores and successive requests.

Modelling choices:

- A `DateTime` is its tick count: 100 ns units since 0001-01-01. `Date`
  rounds down to a multiple of one day's ticks. A `TimeSpan` is a signed
  tick count, and slots are compared with `==`, as in the source.
- The controller's outcomes become values of `Result`:
  - `NotFound()` becomes `NotFound`;
  - a thrown `TableBookingException` becomes `Conflict(msg)` for
    "Table already booked" and for "Table already booked for the selected
    time slot", and `InvalidInput(msg)` for "Invalid reservation date";
  - the redirect to `Confirmation` becomes `Ok(bookingId)`;
  - a `View(x)` becomes `Ok(x)`.
- The identity column that numbers bookings is the field `nextBookingId`.
  It starts at 1 and is consumed by each successful booking.
- `ValidState` holds what the relational store guarantees: unique primary
  keys, the identity column ahead of every id it has handed out, and
  foreign keys that name stored tables. `Create` requires and keeps it.
- Lookups follow `FirstOrDefault`: the first stored match. With unique ids
  that is the only match (`TableIndexOfStored`, `BookingIndexOfStored`).
- The source compares the full `reservationDate` with the cutoff. A
  day-only comparison would give the same answer, because the cutoff is
  midnight; `DateCheckUsesDayOnly` proves this.

Observations the proofs bring out:

- A table's availability flag is not tied to its bookings in both
  directions. Seeded data may hold a table that is unavailable without
  bookings, or available with bookings. What does hold is this: if every
  booked table is unavailable beforehand, `Create` keeps it so
  (`CreateKeepsBookedTablesUnavailable`).
- While that holds, check 4 (the slot collision) can never fire, because
  check 2 refuses first (`SlotCheckSubsumedByAvailability`). In particular,
  a second booking of the same table on the same day at a different slot is
  refused with "Table already booked", not accepted. The model follows the
  code here. A different slot is accepted only on a table that is still
  available although bookings for it exist (`OtherSlotsDoNotCollide`).
- Starting from seeded tables without bookings, any series of requests
  leaves each table with at most one booking
  (`SeededStoreHoldsOneBookingPerTable`). This is the "one active booking per
  table" rule. It is enforced by the availability flag alone: the store has
  no unique constraint for it.

## Model

| member | source | states |
|---|---|---|
| `Linq.FirstIndex` | Controllers/BookingController.cs:51-53 | `FirstOrDefault`: None exactly when no element matches; otherwise the position of a match with no match before it |
| `Linq.Any` | Controllers/BookingController.cs:79-81 | `Any` is true exactly when some element satisfies the predicate |
| `Linq.Where` | Controllers/TableController.cs:20-22 | `Where(...).ToList()` holds exactly the matching elements, each as often as in the input, and is no longer than the input |
| `Models.Date` | Controllers/BookingController.cs:89 | `DateTime.Date` is the midnight that starts the day: a whole number of days, at most the input and less than a day before it |
| `Models.DaysBeforeMonth` | Controllers/BookingController.cs:65 | the days before the first of a month follow the cumulative month table (0, 31, 59, …, 334), plus one from March on in a leap year |
| `Models.DateTimeOf` | Controllers/BookingController.cs:65 | `new DateTime(y, m, d)` is a midnight tick count |
| `Models.ApplicationDbContext.constructor` | Models/ApplicationDbContext.cs:12-13 | a database seeded with tables with unique ids and no bookings satisfies the store invariant |
| `TableController.AvailableSlots` | Controllers/TableController.cs:18-24 | lists exactly the stored tables whose availability is true, each as often as stored |
| `TableController.BookedSlots` | Controllers/TableController.cs:26-33 | lists exactly the stored tables whose availability is false, each as often as stored |
| `TableController.ListingsPartitionTables` | Controllers/TableController.cs:20-31 | the two listings share no table, and together they hold every stored table exactly as often as stored |
| `BookingController.TableIndex` | Controllers/BookingController.cs:51-53 | the table lookup fails exactly when no stored table has the id; otherwise it finds the first table with that id |
| `BookingController.SlotTaken` | Controllers/BookingController.cs:79-81 | true exactly when a booking of the table lies on the same calendar day with an identical slot |
| `BookingController.CreateForm` | Controllers/BookingController.cs:26-44 | GET pre-check: NotFound exactly for an unknown id; a conflict is always "Table already booked"; success returns a stored available table with that id; the store is only read |
| `BookingController.CreateBooking` | Controllers/BookingController.cs:47-97 | POST: NotFound exactly for an unknown id; every failure leaves the store unchanged; success returns the next booking identity and needs a date not before the cutoff |
| `BookingController.BookingIndex` | Controllers/BookingController.cs:113-115 | the booking lookup fails exactly when no stored booking has the id; otherwise it finds a booking with that id |
| `BookingController.Confirmation` | Controllers/BookingController.cs:111-123 | NotFound exactly when no booking has the id; otherwise a stored booking with that id; no other outcome |
| `BookingController.Create` | Controllers/BookingController.cs:47-97 | the in-place method produces exactly the outcome and the new database that `CreateBooking` specifies, and keeps the store invariant |
| `BookingController.CreatePreservesValid` | Controllers/BookingController.cs:86-95 | a booking request keeps primary keys unique, the identity ahead of all booking ids, and every foreign key valid |
| `BookingProperties.TableIndexOfStored` | Controllers/BookingController.cs:51-53 | with unique table ids, the lookup of a stored table's id finds that table |
| `BookingProperties.BookingIndexOfStored` | Controllers/BookingController.cs:113-115 | with unique booking ids, the lookup of a stored booking's id finds that booking |
| `BookingProperties.DateCheckUsesDayOnly` | Controllers/BookingController.cs:65-70 | comparing the full reservation date with the cutoff decides the same as comparing its calendar day |
| `BookingProperties.CreateFormOutcomes` | Controllers/BookingController.cs:34-43 | for a stored table, the form returns the table if it is available and "Table already booked" if not |
| `BookingProperties.CreateOnUnavailableTable` | Controllers/BookingController.cs:60-63 | an unavailable table is refused with "Table already booked" for every date and slot, before the date and slot checks, and nothing is written |
| `BookingProperties.CreateBeforeCutoff` | Controllers/BookingController.cs:65-70 | on an available table, a date before 2023-07-01 00:00 is refused with "Invalid reservation date" for every slot, and nothing is written |
| `BookingProperties.CreateSlotCollision` | Controllers/BookingController.cs:79-84 | on an available table with an admissible date, the slot conflict occurs exactly when a booking of that table has the same day and slot; otherwise the request succeeds |
| `BookingProperties.OtherSlotsDoNotCollide` | Controllers/BookingController.cs:79-84 | bookings of the table at other slots, or on other days, do not block an admissible request on an available table |
| `BookingProperties.CreateSuccessEffect` | Controllers/BookingController.cs:86-95 | success appends exactly one booking (table id, `reservationDate.Date`, slot, next identity), marks exactly that table unavailable, and leaves every other table and booking as it was |
| `BookingProperties.ConfirmationAfterCreate` | Controllers/BookingController.cs:111-123 | the id returned at line 97 confirms the booking just written; every other id confirms what it did before |
| `BookingProperties.RepeatRequestRefused` | Controllers/BookingController.cs:60-94 | after a successful booking, the form and every further request for that table are refused with "Table already booked" |
| `BookingProperties.CreateKeepsBookedTablesUnavailable` | Controllers/BookingController.cs:86-95 | if every table with a booking is unavailable, that remains true after any request |
| `BookingProperties.SlotCheckSubsumedByAvailability` | Controllers/BookingController.cs:60-84 | while every booked table is unavailable, no request is refused with the slot-collision message |
| `BookingProperties.AvailableAfterMarkBooked` | Controllers/TableController.cs:18-24 | marking an available table booked removes exactly that table from the available listing |
| `BookingProperties.BookedAfterMarkBooked` | Controllers/TableController.cs:26-33 | marking an available table booked adds exactly its booked form to the booked listing |
| `BookingProperties.ListingsAfterCreate` | Controllers/TableController.cs:18-33 | after a successful booking the table moves from the available listing to the booked listing, and no other table moves |
| `BookingProperties.CreateKeepsOneBookingPerTable` | Controllers/BookingController.cs:60-95 | while every booked table is unavailable, a request never gives a table a second booking |
| `BookingProperties.ReplayKeepsOneBookingPerTable` | Controllers/BookingController.cs:60-95 | over any series of requests served one after another, the store invariant, "booked tables are unavailable" and "one booking per table" all hold, and no request is refused by the slot check |
| `BookingProperties.SeededStoreHoldsOneBookingPerTable` | Controllers/BookingController.cs:60-95 | from freshly seeded tables, any series of requests leaves each table with at most one booking and never triggers the slot conflict |
| `BookingProperties.ReplayKeepsConfirmation` | Controllers/BookingController.cs:111-123 | a confirmable booking stays confirmable, unchanged, through any later series of requests |
| `BookingProperties.ReplayConfirmsEveryReturnedId` | Controllers/BookingController.cs:111-123 | every id returned by a successful request in a series can be confirmed after the series |
| `BookingProperties.SingleTableScenario` | TestProject/UnitTest1.cs:143-166 | one free table for four: booking 2023-07-05 at 10:00 yields id 1, stores the booking and books the table; repeating it yields "Table already booked"; 2023-01-01 yields "Invalid reservation date" |

## Left out

- The MVC result plumbing (`View`, `NotFound()`, `RedirectToAction`) and the `Index` action: presentation only; outcomes are `Result` values.
- The unreachable statements after the `return` in `Create` (POST): they can never run.
- The commented-out minimum-duration rule for time slots: it is disabled in the source.
- `Include` eager loading: the listings and lookups return tables and bookings without their attached related records; the relation is the foreign key `dinningTableId`.
- Entity Framework's relationship and delete configuration, and `SaveChanges` as a transaction: persistence-engine behaviour. A failed request writes nothing, and a successful one writes both changes together.
- The race between two concurrent requests that both pass the availability check: the model is sequential.
- `CustomerID`: never set or checked.
- Real calendar arithmetic beyond `DateTimeOf`, including the upper bound of `DateTime` (9999-12-31): dates are unbounded tick counts.
- The range of the `Bookings.TimeSlot` column: it is SQL Server `time` (Migrations/20230704055149_initial setup.cs:35), which holds only 00:00:00 to 23:59:59.9999999. On that store a request whose slot is negative or a day or longer passes all four checks and then fails in `SaveChanges` without writing anything. The model, like the in-memory provider, accepts any slot and returns `Ok`.
- Overflow of the 32-bit booking identity: ids are unbounded integers.
- Models.DateTimeOf: states only that the result is midnight, not that it is ordered like the (year, month, day) triple; `SingleTableScenario` checks the dates it uses against the cutoff by computation.
