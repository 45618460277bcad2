/** The booking rules: the booking form's pre-check, the validated creation
    of a booking, and the confirmation lookup. Failures that the controller
    signals with `NotFound()` or by throwing `TableBookingException` are
    returned as values of `Result`. */
module BookingController {
  import opened Linq
  import opened Models

  datatype Result<+T> = Ok(value: T) | NotFound | Conflict(msg: string) | InvalidInput(msg: string)

  const TableAlreadyBooked := "Table already booked"
  const InvalidReservationDate := "Invalid reservation date"
  const SlotAlreadyBooked := "Table already booked for the selected time slot"

  /** No reservation may be made for a date before 2023-07-01 00:00. */
  const Cutoff: DateTime := DateTimeOf(2023, 7, 1)

  /** The position of the table with id `tableId` (the first one, as
      `FirstOrDefault` picks it), or None. */
  function TableIndex(tables: seq<DinningTable>, tableId: int): (r: Option<nat>)
    ensures r.None? <==> !HasTable(tables, tableId)
    ensures r.Some? ==> r.value < |tables| && tables[r.value].dinningTableId == tableId
    ensures r.Some? ==> forall j :: 0 <= j < r.value ==> tables[j].dinningTableId != tableId
  {
    FirstIndex(tables, (t: DinningTable) => t.dinningTableId == tableId)
  }

  /** Booking `b` holds table `tableId` on the calendar day of `date` at
      exactly the slot `slot`. */
  predicate Collides(b: Booking, tableId: int, date: DateTime, slot: TimeSpan) {
    b.dinningTableId == tableId && Date(b.reservationDate) == Date(date) && b.timeSlot == slot
  }

  /** Some stored booking collides with the requested table, day and slot. */
  function SlotTaken(bookings: seq<Booking>, tableId: int, date: DateTime, slot: TimeSpan): (r: bool)
    ensures r <==> exists i :: 0 <= i < |bookings| && Collides(bookings[i], tableId, date, slot)
  {
    Any(bookings, (b: Booking) => Collides(b, tableId, date, slot))
  }

  /** `Create(tableId)` (GET): the table to show on the booking form. */
  function CreateForm(s: DbState, tableId: int): (r: Result<DinningTable>)
    ensures r == NotFound <==> !HasTable(s.dinningTables, tableId)
    ensures r.Ok? ==> r.value in s.dinningTables && r.value.dinningTableId == tableId && r.value.availability
    ensures r.Conflict? ==> r.msg == TableAlreadyBooked
    ensures !r.InvalidInput?
  {
    match TableIndex(s.dinningTables, tableId)
    case None => NotFound
    case Some(i) =>
      var table := s.dinningTables[i];
      if !table.availability then Conflict(TableAlreadyBooked) else Ok(table)
  }

  /** The outcome of `Create(tableId, reservationDate, timeSlot)` (POST) and
      the database after it. */
  datatype Transition = Transition(result: Result<int>, after: DbState)

  /** `Create(tableId, reservationDate, timeSlot)` (POST): the four checks in
      their fixed order, then one new booking and the table marked booked. */
  function CreateBooking(s: DbState, tableId: int, reservationDate: DateTime, timeSlot: TimeSpan): (t: Transition)
    ensures t.result.Ok? || t.after == s
    ensures t.result == NotFound <==> !HasTable(s.dinningTables, tableId)
    ensures t.result.Ok? ==> t.result.value == s.nextBookingId
    ensures t.result.Ok? ==> Cutoff <= reservationDate
  {
    match TableIndex(s.dinningTables, tableId)
    case None => Transition(NotFound, s)
    case Some(i) =>
      var table := s.dinningTables[i];
      if !table.availability then
        Transition(Conflict(TableAlreadyBooked), s)
      else if reservationDate < Cutoff then
        Transition(InvalidInput(InvalidReservationDate), s)
      else if SlotTaken(s.bookings, table.dinningTableId, reservationDate, timeSlot) then
        Transition(Conflict(SlotAlreadyBooked), s)
      else
        var booking := Booking(s.nextBookingId, table.dinningTableId, Date(reservationDate), timeSlot);
        Transition(Ok(booking.bookingId),
                   DbState(s.dinningTables[i := table.(availability := false)],
                           s.bookings + [booking],
                           s.nextBookingId + 1))
  }

  /** The position of the booking with id `bookingId`, or None. */
  function BookingIndex(bookings: seq<Booking>, bookingId: int): (r: Option<nat>)
    ensures r.None? <==> forall i :: 0 <= i < |bookings| ==> bookings[i].bookingId != bookingId
    ensures r.Some? ==> r.value < |bookings| && bookings[r.value].bookingId == bookingId
  {
    FirstIndex(bookings, (b: Booking) => b.bookingId == bookingId)
  }

  /** `Confirmation(bookingId)`: the booking to confirm. */
  function Confirmation(s: DbState, bookingId: int): (r: Result<Booking>)
    ensures r == NotFound <==> forall i :: 0 <= i < |s.bookings| ==> s.bookings[i].bookingId != bookingId
    ensures r.Ok? ==> r.value in s.bookings && r.value.bookingId == bookingId
    ensures r.Ok? || r.NotFound?
  {
    match BookingIndex(s.bookings, bookingId)
    case None => NotFound
    case Some(i) => Ok(s.bookings[i])
  }

  /** `Create(tableId, reservationDate, timeSlot)` (POST) on the database
      context: every check reads the store, and the two writes come after
      all of them. */
  method Create(db: ApplicationDbContext, tableId: int, reservationDate: DateTime, timeSlot: TimeSpan)
    returns (r: Result<int>)
    requires db.Valid()
    modifies db
    ensures db.Valid()
    ensures Transition(r, db.State()) == CreateBooking(old(db.State()), tableId, reservationDate, timeSlot)
  {
    var found := TableIndex(db.dinningTables, tableId);
    if found.None? {
      return NotFound;
    }
    var i := found.value;
    var table := db.dinningTables[i];
    if !table.availability {
      return Conflict(TableAlreadyBooked);
    }
    var targetDate := Cutoff;
    if reservationDate < targetDate {
      return InvalidInput(InvalidReservationDate);
    }
    if SlotTaken(db.bookings, table.dinningTableId, reservationDate, timeSlot) {
      return Conflict(SlotAlreadyBooked);
    }
    var booking := Booking(db.nextBookingId, table.dinningTableId, Date(reservationDate), timeSlot);
    db.bookings := db.bookings + [booking];
    db.dinningTables := db.dinningTables[i := table.(availability := false)];
    // SaveChanges: the identity column hands out the booking's id
    db.nextBookingId := db.nextBookingId + 1;
    r := Ok(booking.bookingId);
    CreatePreservesValid(old(db.State()), tableId, reservationDate, timeSlot);
  }

  /** Creating a booking keeps the store's keys unique, the identity column
      ahead of every booking id, and every foreign key pointing at a table. */
  lemma CreatePreservesValid(s: DbState, tableId: int, reservationDate: DateTime, timeSlot: TimeSpan)
    requires ValidState(s)
    ensures ValidState(CreateBooking(s, tableId, reservationDate, timeSlot).after)
  {
    var t := CreateBooking(s, tableId, reservationDate, timeSlot);
    if t.result.Ok? {
      var i := TableIndex(s.dinningTables, tableId).value;
      var s' := t.after;
      assert forall k :: 0 <= k < |s.dinningTables| ==>
        s'.dinningTables[k].dinningTableId == s.dinningTables[k].dinningTableId;
      forall k | 0 <= k < |s'.bookings|
        ensures HasTable(s'.dinningTables, s'.bookings[k].dinningTableId)
      {
        if k < |s.bookings| {
          var j :| 0 <= j < |s.dinningTables| && s.dinningTables[j].dinningTableId == s.bookings[k].dinningTableId;
          assert s'.dinningTables[j].dinningTableId == s'.bookings[k].dinningTableId;
        } else {
          assert s'.dinningTables[i].dinningTableId == s'.bookings[k].dinningTableId;
        }
      }
    }
  }
}
