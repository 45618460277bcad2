/** What the booking rules guarantee, stated over whole stores and across
    several requests. */
module BookingProperties {
  import opened Linq
  import opened Models
  import opened TableController
  import opened BookingController

  /** With unique table ids, the lookup finds a stored table at its own position. */
  lemma TableIndexOfStored(tables: seq<DinningTable>, i: nat)
    requires DistinctTableIds(tables)
    requires i < |tables|
    ensures TableIndex(tables, tables[i].dinningTableId) == Some(i)
  {
  }

  /** With unique booking ids, the lookup finds a stored booking at its own position. */
  lemma BookingIndexOfStored(bookings: seq<Booking>, k: nat)
    requires DistinctBookingIds(bookings)
    requires k < |bookings|
    ensures BookingIndex(bookings, bookings[k].bookingId) == Some(k)
  {
  }

  /** The cutoff is midnight, so comparing the full reservation date with it
      decides the same as comparing the reservation's calendar day. */
  lemma DateCheckUsesDayOnly(d: DateTime)
    ensures d < Cutoff <==> Date(d) < Cutoff
  {
  }

  /** The booking form: NotFound exactly for an unknown id, "Table already
      booked" exactly for a stored unavailable table, and the table itself
      exactly when it is available. */
  lemma CreateFormOutcomes(s: DbState, i: nat)
    requires DistinctTableIds(s.dinningTables)
    requires i < |s.dinningTables|
    ensures var table := s.dinningTables[i];
            CreateForm(s, table.dinningTableId) == if table.availability then Ok(table) else Conflict(TableAlreadyBooked)
  {
  }

  /** An unavailable table is refused with "Table already booked", whatever
      the date and slot, before the date and slot are looked at, and the
      store is left as it was. */
  lemma CreateOnUnavailableTable(s: DbState, i: nat, reservationDate: DateTime, timeSlot: TimeSpan)
    requires DistinctTableIds(s.dinningTables)
    requires i < |s.dinningTables| && !s.dinningTables[i].availability
    ensures CreateBooking(s, s.dinningTables[i].dinningTableId, reservationDate, timeSlot)
         == Transition(Conflict(TableAlreadyBooked), s)
  {
  }

  /** On an available table, a date before 2023-07-01 is refused with
      "Invalid reservation date", whatever the slot, and nothing is written. */
  lemma CreateBeforeCutoff(s: DbState, i: nat, reservationDate: DateTime, timeSlot: TimeSpan)
    requires DistinctTableIds(s.dinningTables)
    requires i < |s.dinningTables| && s.dinningTables[i].availability
    requires reservationDate < Cutoff
    ensures CreateBooking(s, s.dinningTables[i].dinningTableId, reservationDate, timeSlot)
         == Transition(InvalidInput(InvalidReservationDate), s)
  {
  }

  /** On an available table and an admissible date, the request is refused
      with the slot message exactly when a booking of that table lies on the
      same calendar day with an identical slot; otherwise it succeeds. */
  lemma CreateSlotCollision(s: DbState, i: nat, reservationDate: DateTime, timeSlot: TimeSpan)
    requires DistinctTableIds(s.dinningTables)
    requires i < |s.dinningTables| && s.dinningTables[i].availability
    requires Cutoff <= reservationDate
    ensures var t := CreateBooking(s, s.dinningTables[i].dinningTableId, reservationDate, timeSlot);
            && (t.result == Conflict(SlotAlreadyBooked) <==>
                exists k :: 0 <= k < |s.bookings| && Collides(s.bookings[k], s.dinningTables[i].dinningTableId, reservationDate, timeSlot))
            && (t.result.Ok? || t.result == Conflict(SlotAlreadyBooked))
  {
  }

  /** A booking at another slot, or on another day, does not block the
      request: if no booking of the table shares both day and slot, an
      available table accepts any admissible date. */
  lemma OtherSlotsDoNotCollide(s: DbState, i: nat, reservationDate: DateTime, timeSlot: TimeSpan)
    requires DistinctTableIds(s.dinningTables)
    requires i < |s.dinningTables| && s.dinningTables[i].availability
    requires Cutoff <= reservationDate
    requires forall k :: (0 <= k < |s.bookings| && s.bookings[k].dinningTableId == s.dinningTables[i].dinningTableId
                          && Date(s.bookings[k].reservationDate) == Date(reservationDate)) ==> s.bookings[k].timeSlot != timeSlot
    ensures CreateBooking(s, s.dinningTables[i].dinningTableId, reservationDate, timeSlot).result == Ok(s.nextBookingId)
  {
  }

  /** A successful request writes exactly one booking (the table's id, the
      reservation's calendar day, the given slot, the next identity), marks
      exactly that table unavailable, and changes no other table or booking. */
  lemma CreateSuccessEffect(s: DbState, i: nat, reservationDate: DateTime, timeSlot: TimeSpan)
    requires DistinctTableIds(s.dinningTables)
    requires i < |s.dinningTables|
    requires CreateBooking(s, s.dinningTables[i].dinningTableId, reservationDate, timeSlot).result.Ok?
    ensures var table := s.dinningTables[i];
            var after := CreateBooking(s, table.dinningTableId, reservationDate, timeSlot).after;
            && table.availability
            && after.bookings == s.bookings + [Booking(s.nextBookingId, table.dinningTableId, Date(reservationDate), timeSlot)]
            && |after.dinningTables| == |s.dinningTables|
            && after.dinningTables[i] == table.(availability := false)
            && (forall j :: 0 <= j < |s.dinningTables| && j != i ==> after.dinningTables[j] == s.dinningTables[j])
            && after.nextBookingId == s.nextBookingId + 1
  {
  }

  /** The id returned by a successful request confirms the booking that was
      written, and every other id confirms what it confirmed before. */
  lemma ConfirmationAfterCreate(s: DbState, tableId: int, reservationDate: DateTime, timeSlot: TimeSpan, other: int)
    requires ValidState(s)
    requires CreateBooking(s, tableId, reservationDate, timeSlot).result.Ok?
    ensures var t := CreateBooking(s, tableId, reservationDate, timeSlot);
            Confirmation(t.after, t.result.value) == Ok(Booking(t.result.value, tableId, Date(reservationDate), timeSlot))
    ensures var t := CreateBooking(s, tableId, reservationDate, timeSlot);
            other != t.result.value ==> Confirmation(t.after, other) == Confirmation(s, other)
  {
    var t := CreateBooking(s, tableId, reservationDate, timeSlot);
    CreatePreservesValid(s, tableId, reservationDate, timeSlot);
    var n := |s.bookings|;
    assert t.after.bookings[n].bookingId == t.result.value;
    BookingIndexOfStored(t.after.bookings, n);
    if other != t.result.value {
      match BookingIndex(s.bookings, other)
      case None =>
        assert forall k :: 0 <= k < |t.after.bookings| ==> t.after.bookings[k].bookingId != other;
      case Some(k) =>
        BookingIndexOfStored(s.bookings, k);
        BookingIndexOfStored(t.after.bookings, k);
    }
  }

  /** Once a table has been booked, every further request for it, on any day
      and any slot, is refused with "Table already booked", and so is its
      booking form. */
  lemma RepeatRequestRefused(s: DbState, tableId: int, reservationDate: DateTime, timeSlot: TimeSpan,
                             nextDate: DateTime, nextSlot: TimeSpan)
    requires ValidState(s)
    requires CreateBooking(s, tableId, reservationDate, timeSlot).result.Ok?
    ensures var after := CreateBooking(s, tableId, reservationDate, timeSlot).after;
            && CreateBooking(after, tableId, nextDate, nextSlot) == Transition(Conflict(TableAlreadyBooked), after)
            && CreateForm(after, tableId) == Conflict(TableAlreadyBooked)
  {
    var i := TableIndex(s.dinningTables, tableId).value;
    CreateSuccessEffect(s, i, reservationDate, timeSlot);
    var after := CreateBooking(s, tableId, reservationDate, timeSlot).after;
    CreatePreservesValid(s, tableId, reservationDate, timeSlot);
    CreateOnUnavailableTable(after, i, nextDate, nextSlot);
    CreateFormOutcomes(after, i);
  }

  /** Every table that some booking refers to is marked unavailable. */
  predicate BookedTablesUnavailable(s: DbState) {
    forall k, i :: (0 <= k < |s.bookings| && 0 <= i < |s.dinningTables|
                    && s.bookings[k].dinningTableId == s.dinningTables[i].dinningTableId) ==> !s.dinningTables[i].availability
  }

  /** Requests keep every booked table unavailable. */
  lemma CreateKeepsBookedTablesUnavailable(s: DbState, tableId: int, reservationDate: DateTime, timeSlot: TimeSpan)
    requires DistinctTableIds(s.dinningTables)
    requires BookedTablesUnavailable(s)
    ensures BookedTablesUnavailable(CreateBooking(s, tableId, reservationDate, timeSlot).after)
  {
  }

  /** While every booked table is unavailable (as it is when all bookings
      were made through `Create`), the slot check can never refuse a
      request: the availability check has already refused it. */
  lemma SlotCheckSubsumedByAvailability(s: DbState, tableId: int, reservationDate: DateTime, timeSlot: TimeSpan)
    requires DistinctTableIds(s.dinningTables)
    requires BookedTablesUnavailable(s)
    ensures CreateBooking(s, tableId, reservationDate, timeSlot).result != Conflict(SlotAlreadyBooked)
  {
  }

  /** Marking an available table booked removes it from the available
      listing and leaves every other table there. */
  lemma AvailableAfterMarkBooked(tables: seq<DinningTable>, i: nat)
    requires i < |tables| && tables[i].availability
    ensures multiset(AvailableSlots(tables[i := tables[i].(availability := false)]))
         == multiset(AvailableSlots(tables)) - multiset{tables[i]}
  {
  }

  /** Marking an available table booked adds its booked form to the booked
      listing and leaves every other table there. */
  lemma BookedAfterMarkBooked(tables: seq<DinningTable>, i: nat)
    requires i < |tables| && tables[i].availability
    ensures multiset(BookedSlots(tables[i := tables[i].(availability := false)]))
         == multiset(BookedSlots(tables)) + multiset{tables[i].(availability := false)}
  {
  }

  /** After a successful request the table leaves the available listing and
      joins the booked listing; no other table moves. */
  lemma ListingsAfterCreate(s: DbState, i: nat, reservationDate: DateTime, timeSlot: TimeSpan)
    requires DistinctTableIds(s.dinningTables)
    requires i < |s.dinningTables|
    requires CreateBooking(s, s.dinningTables[i].dinningTableId, reservationDate, timeSlot).result.Ok?
    ensures var table := s.dinningTables[i];
            var after := CreateBooking(s, table.dinningTableId, reservationDate, timeSlot).after;
            && multiset(AvailableSlots(after.dinningTables)) == multiset(AvailableSlots(s.dinningTables)) - multiset{table}
            && multiset(BookedSlots(after.dinningTables)) == multiset(BookedSlots(s.dinningTables)) + multiset{table.(availability := false)}
  {
    var table := s.dinningTables[i];
    CreateSuccessEffect(s, i, reservationDate, timeSlot);
    var after := CreateBooking(s, table.dinningTableId, reservationDate, timeSlot).after;
    assert after.dinningTables == s.dinningTables[i := table.(availability := false)];
    AvailableAfterMarkBooked(s.dinningTables, i);
    BookedAfterMarkBooked(s.dinningTables, i);
  }

  /** One table seated four, free; a booking for 2023-07-05 at 10:00 gets
      id 1 and books the table, and the same request again is refused with
      "Table already booked"; 2023-01-01 would have been refused as a date. */
  lemma SingleTableScenario()
    ensures var s := DbState([DinningTable(1, 4, true)], [], 1);
            var july5, tenOClock := DateTimeOf(2023, 7, 5), 10 * 36_000_000_000;
            var first := CreateBooking(s, 1, july5, tenOClock);
            && first.result == Ok(1)
            && first.after.dinningTables == [DinningTable(1, 4, false)]
            && first.after.bookings == [Booking(1, 1, july5, tenOClock)]
            && CreateBooking(first.after, 1, july5, tenOClock).result == Conflict(TableAlreadyBooked)
            && CreateBooking(s, 1, DateTimeOf(2023, 1, 1), tenOClock).result == InvalidInput(InvalidReservationDate)
  {
  }

  /** One `Create` (POST) request. */
  datatype Request = Request(tableId: int, reservationDate: DateTime, timeSlot: TimeSpan)

  /** The outcomes of a series of requests served one after another, and the
      database they leave behind. */
  datatype Replay = Replay(results: seq<Result<int>>, after: DbState)

  function ReplayRequests(s: DbState, requests: seq<Request>): (r: Replay)
    ensures |r.results| == |requests|
    decreases |requests|
  {
    if |requests| == 0 then Replay([], s)
    else
      var q := requests[0];
      var t := CreateBooking(s, q.tableId, q.reservationDate, q.timeSlot);
      var rest := ReplayRequests(t.after, requests[1..]);
      Replay([t.result] + rest.results, rest.after)
  }

  /** No two bookings hold the same table. */
  predicate OneBookingPerTable(s: DbState) {
    forall k, l :: 0 <= k < l < |s.bookings| ==> s.bookings[k].dinningTableId != s.bookings[l].dinningTableId
  }

  /** A request keeps every table to at most one booking, as long as every
      booked table is unavailable. */
  lemma CreateKeepsOneBookingPerTable(s: DbState, tableId: int, reservationDate: DateTime, timeSlot: TimeSpan)
    requires DistinctTableIds(s.dinningTables)
    requires BookedTablesUnavailable(s) && OneBookingPerTable(s)
    ensures OneBookingPerTable(CreateBooking(s, tableId, reservationDate, timeSlot).after)
  {
  }

  /** Served one after another, requests keep the store invariant, keep every
      booked table unavailable and never give one table a second booking;
      none of them is refused by the slot check. */
  lemma {:induction false} ReplayKeepsOneBookingPerTable(s: DbState, requests: seq<Request>)
    requires ValidState(s) && BookedTablesUnavailable(s) && OneBookingPerTable(s)
    ensures var r := ReplayRequests(s, requests);
            ValidState(r.after) && BookedTablesUnavailable(r.after) && OneBookingPerTable(r.after)
    ensures forall k :: 0 <= k < |requests| ==> ReplayRequests(s, requests).results[k] != Conflict(SlotAlreadyBooked)
    decreases |requests|
  {
    if |requests| > 0 {
      var q := requests[0];
      var t := CreateBooking(s, q.tableId, q.reservationDate, q.timeSlot);
      CreatePreservesValid(s, q.tableId, q.reservationDate, q.timeSlot);
      CreateKeepsBookedTablesUnavailable(s, q.tableId, q.reservationDate, q.timeSlot);
      CreateKeepsOneBookingPerTable(s, q.tableId, q.reservationDate, q.timeSlot);
      SlotCheckSubsumedByAvailability(s, q.tableId, q.reservationDate, q.timeSlot);
      ReplayKeepsOneBookingPerTable(t.after, requests[1..]);
    }
  }

  /** Starting from freshly seeded tables, a table receives at most one
      booking however many requests are served, and the slot check never
      fires. */
  lemma SeededStoreHoldsOneBookingPerTable(tables: seq<DinningTable>, requests: seq<Request>)
    requires DistinctTableIds(tables)
    ensures OneBookingPerTable(ReplayRequests(DbState(tables, [], 1), requests).after)
    ensures forall k :: 0 <= k < |requests| ==>
              ReplayRequests(DbState(tables, [], 1), requests).results[k] != Conflict(SlotAlreadyBooked)
  {
    ReplayKeepsOneBookingPerTable(DbState(tables, [], 1), requests);
  }

  /** A booking that can be confirmed stays confirmable, unchanged, however
      many requests are served afterwards. */
  lemma {:induction false} ReplayKeepsConfirmation(s: DbState, requests: seq<Request>, bookingId: int)
    requires ValidState(s)
    requires Confirmation(s, bookingId).Ok?
    ensures Confirmation(ReplayRequests(s, requests).after, bookingId) == Confirmation(s, bookingId)
    decreases |requests|
  {
    if |requests| > 0 {
      var q := requests[0];
      var t := CreateBooking(s, q.tableId, q.reservationDate, q.timeSlot);
      CreatePreservesValid(s, q.tableId, q.reservationDate, q.timeSlot);
      if t.result.Ok? {
        ConfirmationAfterCreate(s, q.tableId, q.reservationDate, q.timeSlot, bookingId);
      }
      ReplayKeepsConfirmation(t.after, requests[1..], bookingId);
    }
  }

  /** Every successful outcome among `results` names a booking that can be
      confirmed in `db`. */
  predicate AllConfirmable(db: DbState, results: seq<Result<int>>) {
    forall k :: 0 <= k < |results| && results[k].Ok? ==> Confirmation(db, results[k].value).Ok?
  }

  lemma AllConfirmablePrepend(db: DbState, first: Result<int>, results: seq<Result<int>>)
    requires AllConfirmable(db, results)
    requires first.Ok? ==> Confirmation(db, first.value).Ok?
    ensures AllConfirmable(db, [first] + results)
  {

  }

  /** Every id returned by a successful request in a series can be
      confirmed at the end of the series. */
  lemma {:induction false} ReplayConfirmsEveryReturnedId(s: DbState, requests: seq<Request>)
    requires ValidState(s)
    ensures AllConfirmable(ReplayRequests(s, requests).after, ReplayRequests(s, requests).results)
    decreases |requests|
  {
    if |requests| > 0 {
      var q := requests[0];
      var t := CreateBooking(s, q.tableId, q.reservationDate, q.timeSlot);
      CreatePreservesValid(s, q.tableId, q.reservationDate, q.timeSlot);
      ReplayConfirmsEveryReturnedId(t.after, requests[1..]);
      var rest := ReplayRequests(t.after, requests[1..]);
      if t.result.Ok? {
        ConfirmationAfterCreate(s, q.tableId, q.reservationDate, q.timeSlot, t.result.value);
        ReplayKeepsConfirmation(t.after, requests[1..], t.result.value);
      }
      AllConfirmablePrepend(rest.after, t.result, rest.results);
    }
  }
}
